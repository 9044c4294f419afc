# OpenThread core logic in Dafny

A model of parts of OpenThread, the open-source implementation of the Thread
low-power IPv6 mesh protocol, together with proofs about that model. The
parts modelled are the bounded tables, state machines, bit fields and length
arithmetic that sit between the radio and the applications. Each source file
becomes one or more Dafny modules.

- **CoAP transaction engine** (`src/core/coap/coap.cpp`). This is CoAP as in
  RFC 7252, with block-wise transfer (RFC 7959) and observe (RFC 7641).
  - `CoapTxParameters`: the transmission parameters, their overflow-guarded
    validity check and the derived timings.
  - `CoapPending` and `CoapEngine`: the pending-request table as a class.
    This covers sending with roll-back, the retransmission sweep, timer
    re-arming, matching responses to requests, aborting and the response
    state machine.
  - `CoapResponses`: the cache of responses that suppresses duplicates. It
    is bounded, evicts the entry with the earliest deadline, and expires
    entries in one sweep.
  - `CoapRequests`: dispatch of requests to resources.
  - `CoapBlockwise` and `CoapReactions`: the block-wise helpers, and the
    actions a block-wise response leads to.
- **IPv6 addresses**: `Ip6Address` holds the 16-byte address and the classifications the modelled code asks of it (multicast, unspecified, routing locator).
- **Message buffer** (`src/core/common/message.hpp`). `MessageBuffer` is a
  class over a byte sequence. It has the documented contracts of appending,
  reading, writing, removing a footer, cloning and comparing. It also has the
  footer-data trailer helpers and the free-on-error rule.
- **Thread Network Data**. These modules model the leader's Network Data as
  structured TLVs.
  - `NetworkData` (`src/core/thread/network_data.hpp`): TLV sizes, route
    preferences, the mutable Network Data length bookkeeping and the
    three-byte iterator.
  - `NetworkDataValidation`: Validate, ValidatePrefix and ValidateService
    over the TLV bytes.
  - `NetworkDataContextIds`: context-ID allocation and delayed release.
  - `NetworkDataLeaderEdits`: value-level specifications of every leader
    edit.
  - `NetworkDataLeader`: the `Leader` class with its loop methods. The edits
    come from `src/core/thread/network_data_leader_ftd.cpp`.
- **Network Data Publisher** (`src/core/thread/network_data_publisher.cpp`).
  `NetworkDataPublisher` covers the five-state add/remove machine of a
  prefix entry, the preference rule, entry counting and bounded allocation.
- **IPv6** (`src/core/net/ip6.cpp`). `Ip6` covers:
  - the DSCP and priority mapping;
  - forwarding of Thread-origin datagrams, including the hop limit and the
    ICMPv6 filter;
  - fragmentation (section 4.5 of RFC 8200) and reassembly;
  - source-address selection (section 5 of RFC 6724).
- **Neighbor Discovery options** (`src/core/net/nd6.cpp`). `Nd6` covers:
  - the option iterator;
  - the validity of Prefix Information and Route Information options
    (section 4.6.2 of RFC 4861, section 2.3 of RFC 4191);
  - option lengths, including RDNSS (section 5.1 of RFC 8106);
  - the preference bits;
  - the transmit buffer that options are appended to.
- **DNS types** (`src/core/net/dns_types.hpp`). `DnsTypes` covers:
  - the packed header (section 4.1.1 of RFC 1035) and the update-header
    aliases (section 2.2 of RFC 2136);
  - the mapping from response code to error;
  - the resource-record header;
  - the OPT record's TTL bytes (section 6.1.3 of RFC 6891);
  - the KEY record flags (section 3.1.2 of RFC 2535);
  - the Update Lease option and the type bitmap.
- **DNS-SD request IDs** (`src/core/net/dnssd.cpp`). `DnssdRequestIds` is
  the range of serial-number request IDs (RFC 1982 comparison).
- **Backbone router** (`src/core/backbone_router/bbr_manager.cpp`).
  `BbrManager` covers:
  - MLR.req handling: validation, timeout normalisation, the partition of
    addresses inside one array, and the status;
  - the DUA.req result mapping;
  - the proactive-notification rule.
- **TREL transmit queue** (`src/posix/platform/trel.cpp`). `TrelPlatform`
  is a pool of packets threaded into a free list and a circular FIFO queue,
  with the send loop and the counters.
- **Mesh diagnostics** (`src/core/utils/mesh_diag.cpp`). `MeshDiag` covers
  the discovery and query state machine, response parsing and the compact
  link-quality index.
- **Child supervision** (`src/core/thread/child_supervision.cpp`).
  `ChildSupervision` covers the parent's per-child counters and the child's
  supervision-timeout listener.
- `Common` holds the shared error codes, `Option` and fixed-width
  wrap-around. It also holds 32-bit serial time (`SerialLess`) and the
  millisecond timer.

Fixed-width integers are `nat` subsets (`uint8`, `uint16`, `uint32`). Where
the source truncates, the model wraps explicitly (`Wrap8`, `Wrap16`,
`Wrap32`). Collaborators become parameters of the operation that consults
them:
- the transport and its send results;
- random draws;
- the MLE role;
- TLV lookups;
- the multicast listener and ND proxy tables;
- buffer allocation;
- the current time.

Stateful objects are classes whose methods state their new state. Each such
state is tied to a specification function, and the lemmas about those
functions carry the properties.

## Model

| member | source | states |
|---|---|---|
| CoapTxParameters.Multiply | src/core/coap/coap.cpp:1611-1623 | the 32-bit product when it does not overflow, otherwise 0 |
| CoapTxParameters.MultiplyOverflowTest | src/core/coap/coap.cpp:1617-1619 | the division test after the wrapping multiply holds exactly when the true product fits in 32 bits |
| CoapTxParameters.RetransmitFactor | src/core/coap/coap.cpp:1633 | the factor 2^(MAX_RETRANSMIT+1) - 1 IsValid multiplies by, at least 1 |
| CoapTxParameters.LifetimeBound | src/core/coap/coap.cpp:1633-1636 | the value IsValid compares: nonzero exactly when the true product fits in 32 bits, and then the product divided by the random-factor denominator |
| CoapTxParameters.IsValid | src/core/coap/coap.cpp:1625-1642 | accepted parameters are within the RFC 7252 limits and their lifetime product does not overflow |
| CoapTxParameters.IsValidCorrected | src/core/coap/coap.cpp:1625-1642 | the intended check: within limits, and the exchange lifetime bound fits in 32 bits without truncation |
| CoapTxParameters.IsValidCorrectedImpliesIsValid | src/core/coap/coap.cpp:1625-1642 | every parameter set the corrected check accepts is also accepted as written |
| CoapTxParameters.DefaultTxParametersValid | src/core/coap/coap.cpp:1664-1669 | the default parameters pass both checks |
| CoapTxParameters.CalculateInitialRetransmissionTimeout | src/core/coap/coap.cpp:1644-1648 | whatever the random draw, the initial timeout lies in [ACK_TIMEOUT, ACK_TIMEOUT * numerator / denominator] |
| CoapTxParameters.InitialTimeoutRangeOfValid | src/core/coap/coap.cpp:1644-1648 | for valid parameters the range of initial timeouts is never empty and its upper end is computed without wrapping |
| CoapTxParameters.ExactSpanMonotone | src/core/coap/coap.cpp:1658-1662 | the span grows with the retransmission count |
| CoapTxParameters.SpanExact | src/core/coap/coap.cpp:1658-1662 | a span whose true value fits in 32 bits is computed exactly |
| CoapTxParameters.CorrectedTimingsExact | src/core/coap/coap.cpp:1650-1656 | under the corrected check, EXCHANGE_LIFETIME and MAX_TRANSMIT_WAIT equal their unbounded values, and the lifetime exceeds ACK_TIMEOUT |
| CoapTxParameters.IsValidAcceptsWrappingLifetime | src/core/coap/coap.cpp:1637-1639 | IsValid as written accepts an ACK timeout whose exchange lifetime wraps to 99999, below the ACK timeout |
| CoapResponses.Unexpired | src/core/coap/coap.cpp:1593-1603 | the responses a timer sweep keeps are exactly those whose dequeue time is still in the future |
| CoapResponses.EarliestDequeueTime | src/core/coap/coap.cpp:1605-1608 | None for an empty cache, else the smallest dequeue time of a cached response |
| CoapResponses.ResponsesQueue.constructor | src/core/coap/coap.cpp:1474-1477 | the cache starts empty with its timer stopped |
| CoapResponses.ResponsesQueue.FindMatchedResponse | src/core/coap/coap.cpp:1496-1517 | the first cached response with the request's message ID and the same peer address and port, or none if no entry matches |
| CoapResponses.ResponsesQueue.GetMatchedResponseCopy | src/core/coap/coap.cpp:1479-1494 | NotFound exactly when nothing matches; otherwise NoBufs when the copy fails, else a matching cached response |
| CoapResponses.FireNoLaterThan | src/core/coap/coap.cpp:1538 | the cache timer after FireAtIfEarlier runs and fires no later than the asked time or its old time; it is either the asked time or the old timer |
| CoapResponses.EarliestIndex | src/core/coap/coap.cpp:1555-1568 | the entry UpdateQueue's scan settles on has the smallest dequeue time, and every entry before it expires strictly later |
| CoapResponses.Evicted | src/core/coap/coap.cpp:1545-1574 | a cache with room is unchanged; a full one loses one entry, an entry that expires first; what is left was already cached and its keys stay distinct |
| CoapResponses.ResponsesQueue.EarliestEntry | src/core/coap/coap.cpp:1555-1568 | the first entry with the smallest dequeue time, the one EarliestIndex names |
| CoapResponses.ResponsesQueue.UpdateQueue | src/core/coap/coap.cpp:1545-1574 | the cache becomes Evicted(old cache): a full cache loses the entry that expires first, a cache with room is unchanged; afterwards there is room |
| CoapResponses.ResponsesQueue.EnqueueResponse | src/core/coap/coap.cpp:1519-1543 | a response already cached for this message ID and peer changes neither the cache nor its timer; otherwise the cache becomes Evicted(old cache), followed by the response with dequeue time now + EXCHANGE_LIFETIME when the copy and its trailer can be allocated, and only then is the timer moved to that time if it was stopped or due later; keys stay distinct |
| CoapResponses.ResponsesQueue.DequeueAllResponses | src/core/coap/coap.cpp:1578-1582 | the cache is empty and its timer stopped |
| CoapResponses.ResponsesQueue.HandleTimer | src/core/coap/coap.cpp:1589-1609 | the cache becomes Unexpired(old cache, now) and the timer is re-armed at its earliest dequeue time |
| CoapResponses.UnexpiredAppend | src/core/coap/coap.cpp:1593-1603 | the sweep handles a cache entry by entry: appending an entry appends it to the result exactly when it has not expired |
| CoapResponses.UnexpiredKeepsDistinct | src/core/coap/coap.cpp:1593-1603 | expiring entries keeps message-ID and peer keys distinct |
| CoapResponses.RemoveAtKeepsDistinct | src/core/coap/coap.cpp:1570-1573 | evicting an entry keeps keys distinct |
| CoapResponses.AppendKeepsDistinct | src/core/coap/coap.cpp:1529-1537 | appending a response whose key is not cached keeps keys distinct |
| CoapPending.HasHandler | src/core/coap/coap.cpp:540-543 | a handler is called only when it is not null |
| CoapPending.FinalizeEffects | src/core/coap/coap.cpp:534-546 | finalizing a transaction calls the response handler exactly once with the response and result when there is a handler, and otherwise calls nothing |
| CoapPending.NextFireTime | src/core/coap/coap.cpp:451-474 | the retransmission timer is stopped exactly when every entry is an acknowledged subscription; otherwise it fires at the earliest deadline of a timed entry |
| CoapPending.SweepLeavesNothingDue | src/core/coap/coap.cpp:481-532 | after a retransmission sweep, if no doubled timeout wraps, no timed entry is due and the timer is re-armed strictly in the future |
| CoapPending.SweepKeepsNothingDue | src/core/coap/coap.cpp:481-532 | every timed entry the sweep keeps has a deadline after now |
| CoapPending.SweepEntryNotDue | src/core/coap/coap.cpp:495-525 | a retried entry's new deadline is after now |
| CoapPending.SweepConsumesBudget | src/core/coap/coap.cpp:481-532 | a sweep never raises the retry budget and lowers it when an entry is due, so each request is retried a bounded number of times |
| CoapPending.SweepEntryBudget | src/core/coap/coap.cpp:495-525 | one entry's budget share never grows at a sweep and shrinks when it is due |
| CoapPending.SweepKeepsOnlyStoredRequests | src/core/coap/coap.cpp:481-532 | the sweep adds no entries and keeps only requests that were stored |
| CoapPending.FirstRelated | src/core/coap/coap.cpp:1013-1054 | the first pending request related to the received message (same message ID for ACK and RST, same token for CON and NON, and a matching peer), or none when no request is related |
| CoapPending.UnselectedShrinksIffSelected | src/core/coap/coap.cpp:548-565 | finalizing the selected entries shrinks the table exactly when some entry is selected, which is AbortTransaction's NotFound test |
| CoapPending.UnselectedMembers | src/core/coap/coap.cpp:65-78 | exactly the unselected entries survive ClearRequests and AbortTransaction |
| CoapRequests.DropLeadingEmpty | src/core/coap/coap.cpp:1340-1343 | the separator is written only once the path is non-empty, so the path never starts with an empty segment |
| CoapRequests.ScanRequestOptions | src/core/coap/coap.cpp:1333-1371 | Parse exactly when the options do not parse or the joined Uri-Path is longer than kMaxReceivedUriPath; otherwise the joined path and the block option type (1 for Block1, 2 for Block2, summed modulo 256) |
| CoapRequests.UriPathStep | src/core/coap/coap.cpp:1339-1349 | one Uri-Path option appends its value after a '/' to the path built so far; other options leave it unchanged |
| CoapRequests.JoinAppend | src/core/coap/coap.cpp:1340-1348 | joining one more segment appends it after a separator unless the path is still empty |
| CoapRequests.UriPathGrows | src/core/coap/coap.cpp:1335-1369 | the path never shrinks as options are read, so an early overflow means the whole path is too long |
| CoapRequests.BlockOptionTypeStep | src/core/coap/coap.cpp:1351-1357 | each Block1 option adds 1 and each Block2 option adds 2 to the 8-bit block option type |
| CoapRequests.FirstBlockResource | src/core/coap/coap.cpp:1373-1378 | the first block-wise resource whose path equals the request's, or none exactly when no resource matches |
| CoapRequests.FirstResource | src/core/coap/coap.cpp:1440-1448 | the first resource whose path equals the request's, or none exactly when no resource matches |
| CoapRequests.HeaderOnlyResponse | src/core/coap/coap.cpp:419-449 | the response carries the given code, the request's token and no options; it is an ACK with the request's message ID for a CON request and a NON message for a NON request |
| CoapRequests.LongPathIsParseError | src/core/coap/coap.cpp:1345 | a path longer than the buffer is a Parse error: nobody is called and nothing is answered |
| CoapRequests.NotFoundIffUnhandled | src/core/coap/coap.cpp:1373-1468 | NotFound exactly when no block-wise resource, resource handler, resource or default handler takes the path; 4.04 is sent exactly for NotFound on a non-multicast socket address |
| CoapRequests.BlockResourceShadowsOthers | src/core/coap/coap.cpp:1373-1429 | a matching block-wise resource always ends the search, so only a block-wise resource with that path can receive the request |
| CoapRequests.Block1ReachesResourceOnlyWhenComplete | src/core/coap/coap.cpp:1384-1409 | a Block1 request reaches a resource with a receive hook exactly when its block fits, the hook accepts it and it is the last block |
| CoapRequests.ReplyOnlyOnFailure | src/core/coap/coap.cpp:1380-1468 | a header-only response is sent only for Drop or NotFound, always for Drop, and never when a handler took the request |
| CoapRequests.DispatchReplyOnlyOnFailure | src/core/coap/coap.cpp:1373-1468 | the same as ReplyOnlyOnFailure once the path is known |
| CoapRequests.BlockWiseReplyOnlyOnFailure | src/core/coap/coap.cpp:1380-1428 | a block-wise resource answers with a header-only response exactly when its processing fails, and then the request is dropped |
| CoapBlockwise.BlockSize | src/core/coap/coap.cpp:895 | otCoapBlockSizeFromExponent gives 2^(SZX+4), at least 16 bytes |
| CoapBlockwise.SzxForLengthRoundTrip | src/core/coap/coap.cpp:903-931 | the switch on the block length accepts exactly the sizes of SZX 0..6 and returns that exponent |
| CoapBlockwise.SzxForLengthWithinBuffer | src/core/coap/coap.cpp:903-931 | every length the switch accepts fits the kMaxBlockLength buffer |
| CoapBlockwise.RescaledBlockContainsOffset | src/core/coap/coap.cpp:903-931 | the block number rescaled to the new size names the block that contains the byte offset the peer asked for |
| CoapBlockwise.RescaledBlockExactWhenShrinking | src/core/coap/coap.cpp:903-931 | when the block shrinks, the rescaled block starts exactly at the requested offset |
| CoapBlockwise.BlockValue | src/core/coap/coap.cpp:650-651 | the block option value packs NUM, M and SZX so that each can be read back (section 2.2 of RFC 7959) |
| CoapBlockwise.EncodeUint | src/core/coap/coap.cpp:650-651 | the shortest big-endian encoding of an option value: empty exactly for zero, no leading zero byte |
| CoapBlockwise.EncodeUintRoundTrip | src/core/coap/coap.cpp:650-651 | decoding the encoded option value gives it back |
| CoapBlockwise.OrderedConcat | src/core/coap/coap.cpp:646-663 | joining two ordered option lists whose numbers do not cross keeps them ordered |
| CoapBlockwise.NextBlockOptionsFrom | src/core/coap/coap.cpp:639-679 | every option of the next block request is copied from the previous request or is the new block option |
| CoapBlockwise.NextBlockOptionsOrdered | src/core/coap/coap.cpp:639-679 | when the previous request's options are in number order, so are the next request's |
| CoapBlockwise.NextBlockOptionsCarryBlock | src/core/coap/coap.cpp:671-679 | the next block request always carries the new block option |
| CoapBlockwise.NextBlockOptionsStep | src/core/coap/coap.cpp:646-668 | one option of the copy: the block option goes before the first option numbered at or above it, replacing a Block1 or Block2 option |
| CoapBlockwise.PrepareNextBlockOptions | src/core/coap/coap.cpp:623-683 | Parse exactly when the previous request's options do not parse, otherwise the options of the next block request |
| CoapBlockwise.CopyOptionsAroundBlock | src/core/coap/coap.cpp:639-679 | the copy loop yields exactly NextBlockOptions of the previous options |
| CoapBlockwise.CopyOption | src/core/coap/coap.cpp:642-668 | one loop step keeps the copy-progress invariant |
| CoapBlockwise.CopyStep | src/core/coap/coap.cpp:646-668 | the copy-progress invariant advances by one option as the loop body does |
| CoapBlockwise.CopyDone | src/core/coap/coap.cpp:671-679 | at the end of the loop, appending the block option when it was not placed completes the copy |
| CoapBlockwise.Block1Outcome | src/core/coap/coap.cpp:804-863 | NoError exactly for an accepted last block that fits; Busy exactly while more blocks are expected and the Continue acknowledgment goes out, or when the hook is busy |
| CoapBlockwise.Block1ReplyFor | src/core/coap/coap.cpp:1387-1407 | a header-only response answers every outcome except NoError and Busy: 4.13 exactly for NoBufs and 4.08 exactly for NoFrameReceived |
| CoapBlockwise.Block1HandedOverOnlyWhenComplete | src/core/coap/coap.cpp:1387-1394 | the request reaches the resource exactly when its last block arrived, fits and was accepted |
| CoapBlockwise.Block2Response | src/core/coap/coap.cpp:865-990 | a Block2 reply carries the hook's payload in a block size that holds it, with the rescaled number covering the requested offset; InvalidArgs exactly when a non-first block's length is not an exact block size or the last block exceeds the requested size |
| CoapBlockwise.Block2SameSizeKeepsNumber | src/core/coap/coap.cpp:932-941 | with no change of size, the reply answers exactly the block asked for |
| CoapReactions.BlockResponseFinalizesTwice | src/core/coap/coap.cpp:1202-1247 | the block-option switch as written dequeues the request twice when a next-block send fails after dequeuing, and on the last block of a combined Block1/Block2 transfer it also calls the handler twice |
| CoapReactions.CountPairs | src/core/coap/coap.cpp:1233-1244 | the dequeue and handler counts of two action pairs add up |
| CoapReactions.CountConcat | src/core/coap/coap.cpp:1202-1247 | the dequeue and handler counts of a joined action list add up |
| CoapReactions.BlockResponseFinalizesOnce | src/core/coap/coap.cpp:1202-1247 | with the correction, every block-wise response dequeues the request exactly once and calls its handler at most once |
| CoapReactions.FinalizeCounts | src/core/coap/coap.cpp:534-546 | finalizing a transaction dequeues the request once and calls the handler once |
| CoapReactions.ContinuationCounts | src/core/coap/coap.cpp:685-802 | a next-block continuation dequeues at most once, exactly on the last block or on a continued send that dequeues, and calls the handler only on the last block |
| CoapReactions.EmptyReply | src/core/coap/coap.cpp:399-417 | an empty message is built exactly for a confirmable request, with its message ID and the requested type |
| CoapReactions.UnmatchedEffects | src/core/coap/coap.cpp:1288-1296 | an unrelated CON or NON message is answered with a Reset, which SendEmptyMessage builds only for a CON message |
| CoapReactions.EmptyResetAborts | src/core/coap/coap.cpp:1112-1119 | an empty RST removes the pending request and its handler hears Abort |
| CoapReactions.EmptyAckAcknowledges | src/core/coap/coap.cpp:1121-1151 | an empty ACK to a request removes it exactly when no handler waits for a separate response; otherwise it stays, marked acknowledged if it was confirmable, with no handler call |
| CoapReactions.SeparateResponseKeepsOpenRequest | src/core/coap/coap.cpp:1259-1282 | a separate response to a multicast request or an RFC 7641 subscription reaches the handler and leaves the request pending; a CON one is acknowledged first |
| CoapReactions.SeparateResponseCompletes | src/core/coap/coap.cpp:1259-1282 | a separate response to any other request completes it |
| CoapReactions.ReactionHandlesAtMostOnce | src/core/coap/coap.cpp:1083-1297 | with the correction to the block-wise branch, whatever arrives, processing a related message calls the response handler at most once |
| CoapReactions.AppliedChangesOnlyEntry | src/core/coap/coap.cpp:1083-1297 | a reaction never adds a pending entry and changes no entry other than the related one |
| CoapEngine.StoredCopy | src/core/coap/coap.cpp:263-276 | a copy is kept exactly for a CON message, or a NON message whose handler waits for a response; it keeps the header fields |
| CoapEngine.NewMetadata | src/core/coap/coap.cpp:311-335 | a stored request starts unacknowledged with the full retry budget and an initial timeout in [ACK_TIMEOUT, ACK_TIMEOUT * numerator / denominator]; a confirmable one is due after that timeout |
| CoapEngine.CoapBase.constructor | src/core/coap/coap.cpp:43-54 | the engine starts with no pending request, the timer stopped, an empty responses cache and the given first message ID |
| CoapEngine.CoapBase.ScheduleRetransmissionTimer | src/core/coap/coap.cpp:451-474 | the timer is set to NextFireTime of the table |
| CoapEngine.CoapBase.FindRelatedRequest | src/core/coap/coap.cpp:1013-1054 | the first pending request related to the received message, as FirstRelated gives it |
| CoapEngine.CoapBase.DequeueMessage | src/core/coap/coap.cpp:593-597 | the entry leaves the table and the timer is re-armed |
| CoapEngine.CoapBase.FinalizeCoapTransaction | src/core/coap/coap.cpp:534-546 | the entry leaves the table, then its handler is called once with the response and result |
| CoapEngine.CoapBase.FinalizeSelected | src/core/coap/coap.cpp:548-565 | the table keeps exactly the unselected entries, and each selected entry's handler is called in table order |
| CoapEngine.CoapBase.FinalizeNext | src/core/coap/coap.cpp:553-562 | one loop step finalizes the next entry when it is selected and keeps the selection invariant |
| CoapEngine.CoapBase.AbortTransaction | src/core/coap/coap.cpp:548-565 | every request registered with the handler and context is finalized with Abort; NotFound exactly when none was |
| CoapEngine.CoapBase.ClearRequests | src/core/coap/coap.cpp:65-78 | every request, or every request sent from the address, is finalized with Abort; the others stay |
| CoapEngine.CoapBase.ClearAllRequestsAndResponses | src/core/coap/coap.cpp:56-61 | both tables are empty and both timers stopped |
| CoapEngine.CoapBase.HandleRetransmissionTimer | src/core/coap/coap.cpp:481-532 | the table becomes the sweep of the old table at now, its finalizations and retransmissions happen in table order, and the timer is re-armed |
| CoapEngine.CoapBase.SendMessage | src/core/coap/coap.cpp:196-350 | an ACK goes to the responses cache as EnqueueResponse says (unchanged when its exchange is already cached, else Evicted(old cache) plus the response when it can be copied, with the cache timer moved to its dequeue time if that comes first) while every other message leaves the cache and its timer alone; neither an ACK nor a RST takes a message ID, every other message takes the next one; a copy is stored as StoredCopy says, NoBufs when it cannot be, and a failed send leaves no entry behind |
| CoapEngine.CoapBase.CancelObservation | src/core/coap/coap.cpp:286-308 | a GET with Observe = 1 finalizes the subscription it matches |
| CoapEngine.CoapBase.StoreAndSend | src/core/coap/coap.cpp:263-349 | the copy is stored with fresh metadata and survives only a successful send |
| CoapEngine.CoapBase.EnqueueAndSend | src/core/coap/coap.cpp:336-347 | the stored copy is appended and stays only when the send succeeds |
| CoapEngine.CoapBase.SendHeaderResponse | src/core/coap/coap.cpp:419-449 | InvalidArgs for a message that is not a CON or NON request, NoBufs when no message can be allocated, otherwise the header-only response is sent: an ACK with the request's ID, which goes into the responses cache as EnqueueResponse says (unchanged when its exchange is already cached, else Evicted(old cache) plus the ACK when it can be copied, with the cache timer moved by FireNoLaterThan), or a NON message with the next ID, leaving the cache and its timer alone |
| CoapEngine.CoapBase.ProcessReceivedRequest | src/core/coap/coap.cpp:1299-1472 | a refusing interceptor ends processing and a cached answer is resent unchanged, both leaving the message ID, the response cache and its timer as they were; otherwise the request is dispatched as RequestDispatch says and the pending table is untouched; a header-only reply is returned exactly when the request is CON or NON and its buffer can be allocated; a NON reply takes a fresh message ID and leaves the cache and timer unchanged; a CON reply (the ACK) keeps the message ID and, when caching succeeds, is appended to the evicted cache with the cache timer brought forward to its dequeue time |
| CoapEngine.CoapBase.ProcessReceivedResponse | src/core/coap/coap.cpp:1083-1297 | the reaction to the first related request is applied to that entry alone; an unrelated CON message is reset |
| CoapEngine.SelectionDone | src/core/coap/coap.cpp:553-562 | when the loop ends, the table is Unselected and the handler calls are SelectedEffects |
| CoapEngine.SweepTable | src/core/coap/coap.cpp:488-529 | the loop computes exactly the sweep of the table |
| CoapEngine.NothingLeftUnselected | src/core/coap/coap.cpp:65-78 | clearing all requests leaves the table empty |
| CoapEngine.ReplaceKeepsTimerCovering | src/core/coap/coap.cpp:1138-1143 | marking an entry acknowledged keeps the retransmission timer no later than every deadline |
| MessageBuffer.Available | src/core/common/message.hpp:827-843 | a read returns the requested count exactly when that many bytes remain past the offset, fewer otherwise |
| MessageBuffer.Written | src/core/common/message.hpp:995-1004 | writing replaces exactly the bytes at the offset and keeps the length and every other byte |
| MessageBuffer.WithoutFooter | src/core/common/message.hpp:742-750 | removing a footer drops up to that many trailing bytes and keeps the rest as a prefix |
| MessageBuffer.Message.AppendBytes | src/core/common/message.hpp:752-763 | on success the message grows by exactly the appended bytes; NoBufs and no change otherwise |
| MessageBuffer.Message.ReadBytes | src/core/common/message.hpp:831-843 | the bytes from the offset, as many as requested or as remain |
| MessageBuffer.Message.Read | src/core/common/message.hpp:859-869 | NoError with the requested bytes exactly when enough bytes remain, Parse otherwise |
| MessageBuffer.Message.CompareBytes | src/core/common/message.hpp:921-934 | true exactly when enough bytes remain and they match |
| MessageBuffer.Message.WriteBytes | src/core/common/message.hpp:995-1004 | the bytes at the offset are overwritten in place and the message does not grow |
| MessageBuffer.Message.RemoveFooter | src/core/common/message.hpp:742-750 | the message becomes WithoutFooter of its old bytes |
| MessageBuffer.Message.Clone | src/core/common/message.hpp:1058-1067 | null exactly when no buffers are available; otherwise a fresh message with the first length bytes and the same offset and priority |
| MessageBuffer.Message.CloneAll | src/core/common/message.hpp:1069-1078 | a fresh copy of the whole message, or null when no buffers are available |
| MessageBuffer.Message.AppendFooter | src/core/common/message.hpp:411-420 | on success the record is appended and reads back as the footer |
| MessageBuffer.Message.ReadFooter | src/core/common/message.hpp:422-433 | the trailing record of the message |
| MessageBuffer.Message.UpdateFooter | src/core/common/message.hpp:435-445 | the trailing record is rewritten in place and everything before it is kept |
| MessageBuffer.Message.RemoveFooterRecord | src/core/common/message.hpp:447-453 | the trailing record is removed |
| MessageBuffer.FreeMessageOnError | src/core/common/message.hpp:110-125 | the message is freed exactly when the error is not None, and its bytes are untouched |
| MessageBuffer.FooterAfterAppend | src/core/common/message.hpp:411-433 | a record appended with AppendTo reads back with ReadFrom |
| MessageBuffer.RemoveAfterAppend | src/core/common/message.hpp:411-453 | RemoveFrom after AppendTo restores the message |
| MessageBuffer.FooterAfterUpdate | src/core/common/message.hpp:422-445 | UpdateIn then ReadFrom gives back the new record and keeps everything before it |
| DnssdRequestIds.RequestIdRange.constructor | src/core/net/dnssd.cpp:45-60 | a new range is empty |
| DnssdRequestIds.RequestIdRange.Add | src/core/net/dnssd.cpp:45-60 | the range becomes Added(old range, id) |
| DnssdRequestIds.RequestIdRange.Remove | src/core/net/dnssd.cpp:62-75 | the range becomes Removed(old range, id) |
| DnssdRequestIds.InRangeIsInterval | src/core/net/dnssd.cpp:77-82 | while the range spans fewer than 2^31 IDs, the serial-number Contains test is exactly membership in start, start + 1, ..., end - 1 modulo 2^32 |
| DnssdRequestIds.AddToEmpty | src/core/net/dnssd.cpp:47-51 | Add on an empty range yields the one-ID range [id, id + 1) |
| DnssdRequestIds.AddContains | src/core/net/dnssd.cpp:45-60 | after Add(id) the range contains id, when it is still a proper serial interval |
| DnssdRequestIds.AddOnlyWidens | src/core/net/dnssd.cpp:52-59 | Add on a non-empty range moves only the start back to an earlier ID or only the end past a later one |
| DnssdRequestIds.RemoveOnlyAtEnds | src/core/net/dnssd.cpp:62-75 | Remove changes the range exactly when it is non-empty and the ID is its first or last |
| DnssdRequestIds.RemoveFirstDropsIt | src/core/net/dnssd.cpp:66-69 | removing the first ID of a proper range drops exactly that ID |
| ChildSupervision.Ticked | src/core/thread/child_supervision.cpp:93-100 | a tick changes only the counter, and only of a supervised child (valid, sleepy, non-zero interval), by one |
| ChildSupervision.TickedAll | src/core/thread/child_supervision.cpp:91-107 | the ticked table has the same children in the same positions |
| ChildSupervision.ChildSupervisor.constructor | src/core/thread/child_supervision.cpp:44-47 | the supervisor starts unregistered with nothing sent |
| ChildSupervision.ChildSupervisor.SendMessage | src/core/thread/child_supervision.cpp:63-87 | a supervision message goes to the child exactly when it has no queued indirect message and a buffer is allocated |
| ChildSupervision.ChildSupervisor.UpdateOnSend | src/core/thread/child_supervision.cpp:89 | a frame sent to the child resets its counter and changes nothing else |
| ChildSupervision.ChildSupervisor.HandleTimeTick | src/core/thread/child_supervision.cpp:91-107 | the table becomes TickedAll of the old one and the messages sent are Sends of the old table, in table order |
| ChildSupervision.ChildSupervisor.CheckState | src/core/thread/child_supervision.cpp:109-128 | the supervisor is registered with the ticker exactly while MLE is enabled and some child is valid |
| ChildSupervision.HasValidChild | src/core/thread/child_supervision.cpp:115 | true exactly when some child in the table is valid |
| ChildSupervision.TickStep | src/core/thread/child_supervision.cpp:93-106 | one loop step extends the ticked prefix by the ticked child and the sends by that child when it is due |
| ChildSupervision.TickUpdate | src/core/thread/child_supervision.cpp:93-100 | writing the ticked child back extends the ticked prefix by one; an unsupervised child needs no write |
| ChildSupervision.SendsOnlyWhenDue | src/core/thread/child_supervision.cpp:95-105 | a tick sends to a child exactly when it is supervised, its counter reaches the interval, nothing is queued for it and a buffer is allocated |
| ChildSupervision.BoundedSends | src/core/thread/child_supervision.cpp:93-106 | every child a tick sends to is in the table |
| ChildSupervision.TickedAllElements | src/core/thread/child_supervision.cpp:93-100 | each child of the ticked table is that child ticked |
| ChildSupervision.SupervisionListener.constructor | src/core/thread/child_supervision.cpp:140-147 | the listener takes the default interval and timeout and starts its timer exactly when it should run |
| ChildSupervision.SupervisionListener.RestartTimer | src/core/thread/child_supervision.cpp:194-204 | the timer runs exactly when the timeout is non-zero, MLE is enabled and the receiver is off when idle, and then fires timeout seconds from now |
| ChildSupervision.SupervisionListener.SetInterval | src/core/thread/child_supervision.cpp:153-168 | the interval is set, and a change on a child sends one Child Update to the parent |
| ChildSupervision.SupervisionListener.SetTimeout | src/core/thread/child_supervision.cpp:170-179 | the timeout is set, and the timer is restarted only when it changed |
| ChildSupervision.SupervisionListener.UpdateOnReceive | src/core/thread/child_supervision.cpp:181-192 | only a secure frame from the parent, received by a child while the timer runs, restarts the timer |
| ChildSupervision.SupervisionListener.HandleTimer | src/core/thread/child_supervision.cpp:206-217 | a sleepy child counts the timeout and sends a Child Update request, any other device neither; either way the timer runs exactly when RestartTimer's condition holds, then firing one timeout (in ms) from now, and a stopped timer keeps its old fire time |
| MeshDiag.Clamp | src/core/utils/mesh_diag.cpp:60-63 | the response timeout is kept when within [min, max] and otherwise moved to the nearer bound |
| MeshDiag.DiscoverSendsAll | src/core/utils/mesh_diag.cpp:86-103 | with every send succeeding, discovery queries exactly the allocated routers, each once, in increasing router ID order; a failure is a failed send to an allocated router |
| MeshDiag.DiscoverSendsStop | src/core/utils/mesh_diag.cpp:86-103 | once a send has failed, later router IDs are not queried |
| MeshDiag.CompactIndex | src/core/utils/mesh_diag.cpp:509-516 | the position of a router's entry in the Route TLV is at most its router ID |
| MeshDiag.CompactLinkQualities | src/core/utils/mesh_diag.cpp:509-516 | the link quality of each router ID set in the mask is the next Route TLV entry, in ID order; the others stay cleared |
| MeshDiag.ParseFrom | src/core/utils/mesh_diag.cpp:482-523 | NoError exactly when the Address16, Ext MAC Address and Route TLVs are present and the Version TLV is present or absent; then the RLOC16, the router ID it names, the version (or kVersionUnknown) and the link qualities |
| MeshDiag.ChildRloc16 | src/core/utils/mesh_diag.cpp:578 | a child's RLOC16 is its parent's plus its child ID, wrapping as a uint16 |
| MeshDiag.MeshDiagnostics.constructor | src/core/utils/mesh_diag.cpp:50-58 | the engine starts idle with the default response timeout and its timer stopped |
| MeshDiag.MeshDiagnostics.SetResponseTimeout | src/core/utils/mesh_diag.cpp:60-63 | the timeout becomes the clamped value |
| MeshDiag.MeshDiagnostics.DiscoverTopology | src/core/utils/mesh_diag.cpp:65-114 | InvalidState when detached, Busy while an operation runs; otherwise a Diagnostic Get goes to each allocated router in ID order until a send fails, and only when all went out does discovery start with the timer armed |
| MeshDiag.MeshDiagnostics.HandleDiagGetResponse | src/core/utils/mesh_diag.cpp:125-167 | only a successful parsed answer during discovery counts: it removes its router ID, and the last one ends discovery with None while the others report Pending |
| MeshDiag.MeshDiagnostics.Query | src/core/utils/mesh_diag.cpp:193-239 | InvalidState, Busy, InvalidArgs for a child RLOC16, NotFound for an unallocated router, else the send result; a sent query starts the operation with answer index 0 |
| MeshDiag.MeshDiagnostics.SendQuery | src/core/utils/mesh_diag.cpp:169-191 | the same checks in the same order; a sent query records its query ID, resets the answer index and arms the timer, a refused one changes nothing |
| MeshDiag.MeshDiagnostics.ProcessMessage | src/core/utils/mesh_diag.cpp:266-295 | an answer counts exactly when it comes from the queried router's RLOC with the expected query ID and answer index, and then only the expected index advances; an answer from another sender, with another query ID or without an answer index changes nothing; an out-of-order index ends the query with ResponseTimeout as Finalize does (idle, timer stopped, a running discovery aborted, one report) |
| MeshDiag.MeshDiagnostics.Cancel | src/core/utils/mesh_diag.cpp:426-443 | back to idle with the timer stopped; a running discovery also aborts its Diagnostic Gets |
| MeshDiag.MeshDiagnostics.Finalize | src/core/utils/mesh_diag.cpp:445-475 | cancel, then call the running operation's callback once with the error |
| MeshDiag.MeshDiagnostics.HandleTimer | src/core/utils/mesh_diag.cpp:477 | a timeout finalizes the running operation with ResponseTimeout |
| MeshDiag.CompactIndexDistinct | src/core/utils/mesh_diag.cpp:509-516 | different set router IDs read different Route TLV entries |
| TrelPlatform.Counted | src/posix/platform/trel.cpp:239-267 | a successful send adds one packet and its bytes to the counters, any failure adds one failure |
| TrelPlatform.SentCount | src/posix/platform/trel.cpp:323-352 | the packets taken off the queue are those before the first send that would block, and no more than are queued |
| TrelPlatform.Reverse | src/posix/platform/trel.cpp:335-350 | released packets are pushed on the free list's head, so they appear in reverse order |
| TrelPlatform.TrelTx.Queued | src/posix/platform/trel.cpp:323-352 | the packets on the queue, head first |
| TrelPlatform.TrelTx.constructor | src/posix/platform/trel.cpp:58-73 | a pool of the given size with every entry free, an empty queue and zero counters |
| TrelPlatform.TrelTx.InitPacketQueue | src/posix/platform/trel.cpp:307-321 | the queue is empty and every pool entry is on the free list; the lists stay threaded |
| TrelPlatform.TrelTx.EnqueuePacket | src/posix/platform/trel.cpp:354-388 | with no free entry the packet is dropped and nothing changes; otherwise the free head takes the packet and joins the queue's tail |
| TrelPlatform.TrelTx.SendPacket | src/posix/platform/trel.cpp:224-269 | the counters record the outcome of one send attempt |
| TrelPlatform.TrelTx.ReleaseQueueHead | src/posix/platform/trel.cpp:335-350 | the queue's head leaves the circular queue and becomes the free list's head; the lists stay threaded |
| TrelPlatform.TrelTx.SendQueuedPackets | src/posix/platform/trel.cpp:323-352 | packets are sent head first until one would block; the sent ones (or those failed with Abort) move to the free list; every attempt is counted |
| TrelPlatform.TrelTx.SendStep | src/posix/platform/trel.cpp:325-351 | one loop turn either stops at a blocking send or releases the head and keeps the loop invariant |
| TrelPlatform.TrelTx.SendHead | src/posix/platform/trel.cpp:327-329 | a send attempt of the head packet, which is the tail's next |
| TrelPlatform.TrelTx.Send | src/posix/platform/trel.cpp:547-575 | with packets already queued there is no send attempt, and the queued packets become the old ones followed by the new packet (taken from the head of the free list) or stay unchanged when the free list is empty, which keeps packets in order; with an empty queue it is sent at once and counted, and is the only queued packet afterwards exactly when the socket would block and a free buffer exists, otherwise the queue stays empty and the free list unchanged |
| TrelPlatform.Gather | src/posix/platform/trel.cpp:323-352 | the packets stored at the listed pool entries, in order |
| TrelPlatform.ChainAfterEnqueue | src/posix/platform/trel.cpp:362-385 | EnqueuePacket's relinking leaves the free list linked to NULL and the queue's tail linked back to its head |
| TrelPlatform.EnqueueThreads | src/posix/platform/trel.cpp:362-385 | EnqueuePacket's relinking keeps every pool entry on exactly one list |
| TrelPlatform.ReleaseThreads | src/posix/platform/trel.cpp:335-350 | SendQueuedPackets' relinking keeps every pool entry on exactly one list |
| TrelPlatform.ChainAfterRelease | src/posix/platform/trel.cpp:335-350 | the released head is linked in front of the free list and the rest of the queue stays circular |
| TrelPlatform.Zip | src/posix/platform/trel.cpp:329 | each attempt pairs a packet with its send result |
| TrelPlatform.MoveFreeToQueue | src/posix/platform/trel.cpp:362-385 | moving the free head to the queue keeps the entries distinct and the same set |
| TrelPlatform.MoveQueueToFree | src/posix/platform/trel.cpp:335-350 | moving the queue head to the free list keeps the entries distinct and the same set |
| TrelPlatform.SentCountStops | src/posix/platform/trel.cpp:329-333 | the loop stopped at a blocked send: exactly that many packets left the queue |
| TrelPlatform.SentCountAll | src/posix/platform/trel.cpp:325-351 | the loop emptied the queue: every packet left it |
| TrelPlatform.CountedAllTotals | src/posix/platform/trel.cpp:239-267 | each attempt moves exactly one of the packet and failure counters, and no counter decreases |
| NetworkData.RoutePreferenceFromValue | src/core/net/nd6.cpp:122-125 | a two-bit preference reads as high, medium or low, and the reserved value 10 reads as medium |
| NetworkData.RoutePreferenceToValue | src/core/net/nd6.cpp:116-120 | a preference is written as its two low bits |
| NetworkData.RoutePreferenceRoundTrip | src/core/net/nd6.cpp:116-125 | every valid preference survives writing and reading back |
| NetworkData.RoutePreferenceValueRoundTrip | src/core/net/nd6.cpp:116-125 | the reserved value 10 is the only two-bit value that does not survive reading and writing back |
| NetworkData.MutableNetworkData.constructor | src/core/thread/network_data.hpp:575-579 | the Network Data is over the caller's buffer with the given length and size |
| NetworkData.MutableNetworkData.Clear | src/core/thread/network_data.hpp:598-601 | the length drops to zero, after which an insertion of the whole size fits |
| NetworkData.MutableNetworkData.SetLength | src/core/thread/network_data.hpp:603-609 | the length becomes the given one |
| NetworkData.FromRange | src/core/thread/network_data.hpp:140-145 | the Network Data starts at the start TLV and, when the distance fits in a uint8, ends at the end TLV |
| NetworkData.NetworkDataIterator.constructor | src/core/thread/network_data.hpp:476-479 | the iterator reads and writes the caller's three iterator bytes |
| NetworkData.NetworkDataIterator.AdvanceTlv | src/core/thread/network_data.hpp:486-491 | the TLV offset moves past the current TLV (as a uint8) and the sub-TLV offset and entry index restart at 0 |
| NetworkData.NetworkDataIterator.AdvanceSubTlv | src/core/thread/network_data.hpp:499-503 | the sub-TLV offset moves past the current sub-TLV and the entry index restarts; the TLV offset stays |
| NetworkData.NetworkDataIterator.GetAndAdvanceIndex | src/core/thread/network_data.hpp:505 | the entry index before a uint8 post-increment |
| NetworkData.NetworkDataIterator.MarkEntryAsNotNew | src/core/thread/network_data.hpp:507-508 | the entry index becomes 1, so the entry is no longer new |
| NetworkDataContextIds.SkipMarkers | src/core/thread/network_data_leader_ftd.cpp:1488-1498 | the stored remove time is never one of the two markers, and a time that is neither marker is stored unchanged |
| NetworkDataContextIds.FirstUnallocatedFrom | src/core/thread/network_data_leader_ftd.cpp:1459-1467 | the lowest unallocated ID at or above the start, with every ID between them taken, or none when all are taken |
| NetworkDataContextIds.AfterScheduleToRemove | src/core/thread/network_data_leader_ftd.cpp:1473-1486 | scheduling keeps one remove time per context ID |
| NetworkDataContextIds.ScheduleToRemoveReleases | src/core/thread/network_data_leader_ftd.cpp:1473-1486 | only an ID in use is scheduled; it gets a remove time that is no marker, the timer then fires no later than that time, and every other ID and, for an ID not in use, the timer are unchanged |
| NetworkDataContextIds.ApplyContextAction | src/core/thread/network_data_leader_ftd.cpp:1136-1148 | updating a prefix's context ID keeps one state per ID |
| NetworkDataContextIds.ApplyContextActions | src/core/thread/network_data_leader_ftd.cpp:1136-1148 | updating the context IDs of a run of prefixes keeps one state per ID |
| NetworkDataContextIds.ApplyContextActionsAppend | src/core/thread/network_data_leader_ftd.cpp:1136-1148 | the prefixes' context updates apply one after another, in order |
| NetworkDataContextIds.SweptBelow | src/core/thread/network_data_leader_ftd.cpp:1508-1520 | the sweep keeps one state per context ID |
| NetworkDataContextIds.SweptStep | src/core/thread/network_data_leader_ftd.cpp:1508-1520 | visiting one ID frees it when its remove time has come and changes nothing else |
| NetworkDataContextIds.TimerFor | src/core/thread/network_data_leader_ftd.cpp:1524 | the timer is armed exactly when the sweep found a waiting ID, at the time it found |
| NetworkDataContextIds.WindowOrder | src/core/thread/network_data_leader_ftd.cpp:1512-1522 | among times ahead of now, the serial order of TimeMilli is the order of their distance ahead |
| NetworkDataContextIds.NextRemoveTimeIsEarliest | src/core/thread/network_data_leader_ftd.cpp:1500-1525 | the timer is rearmed exactly when some ID is still waiting, at the remove time of a waiting ID, and no waiting ID's remove time comes earlier |
| NetworkDataContextIds.SweepFreesExpired | src/core/thread/network_data_leader_ftd.cpp:1508-1520 | after the sweep no ID is left expired; expired IDs become unallocated and every other ID keeps its state |
| NetworkDataContextIds.ExpiredBelowComplete | src/core/thread/network_data_leader_ftd.cpp:1508-1520 | the sweep removes the context of an ID exactly when that ID is expired |
| NetworkDataContextIds.ContextIds.constructor | src/core/thread/network_data_leader_ftd.cpp:1429-1436 | the reuse delay is kReuseDelay, the timer is stopped, and every ID starts unallocated |
| NetworkDataContextIds.ContextIds.MarkAsInUse | src/core/thread/network_data_leader_ftd.cpp:1144-1147 | the ID is in use and every other ID keeps its state |
| NetworkDataContextIds.ContextIds.MarkAsUnallocated | src/core/thread/network_data_leader_ftd.cpp:1515-1518 | the ID is unallocated and every other ID keeps its state |
| NetworkDataContextIds.ContextIds.Clear | src/core/thread/network_data_leader_ftd.cpp:1438-1444 | every ID from 1 to 15 is unallocated |
| NetworkDataContextIds.ContextIds.GetUnallocatedId | src/core/thread/network_data_leader_ftd.cpp:1446-1471 | NotFound exactly when all fifteen IDs are taken; otherwise the lowest unallocated ID |
| NetworkDataContextIds.ContextIds.SetRemoveTime | src/core/thread/network_data_leader_ftd.cpp:1488-1498 | the ID's state becomes the time, stepped off the two markers, and no other ID changes |
| NetworkDataContextIds.ContextIds.ScheduleToRemove | src/core/thread/network_data_leader_ftd.cpp:1473-1486 | the new remove times and timer are those of scheduling, which releases only an ID in use |
| NetworkDataValidation.EncodedTlvAt | src/core/thread/network_data_leader_ftd.cpp:366-370 | a TLV encoded anywhere in a buffer is read back, header and value, by the scan's step, which moves past exactly its encoding |
| NetworkDataValidation.SplitEncodeAt | src/core/thread/network_data_leader_ftd.cpp:366-370 | the scan splits the encoding of a run of TLVs, wherever it sits, back into exactly those TLVs |
| NetworkDataValidation.SplitEncodeTlvs | src/core/thread/network_data_leader_ftd.cpp:366-370 | splitting the encoding of TLVs gives those TLVs back |
| NetworkDataValidation.EncodeSplitAt | src/core/thread/network_data_leader_ftd.cpp:366-370 | a range the scan splits into TLVs is byte for byte their encoding |
| NetworkDataValidation.EncodeSplitTlvs | src/core/thread/network_data_leader_ftd.cpp:366-370 | bytes that split into TLVs are exactly the encoding of those TLVs |
| NetworkDataValidation.SplitRangeConcat | src/core/thread/network_data_leader_ftd.cpp:366-370 | scanning up to one offset and then on from it gives the same TLVs as one scan |
| NetworkDataValidation.SplitStep | src/core/thread/network_data_leader_ftd.cpp:366-370 | at each offset the TLV there either overruns the end, and the bytes do not split, or it is the next TLV of the split |
| NetworkDataValidation.RouteSubTlvsUniqueBroken | src/core/thread/network_data_leader_ftd.cpp:443-479 | a second stable or temporary Has Route or Border Router sub-TLV, or one whose entry is not the single entry for the RLOC16, makes the Prefix TLV invalid whatever follows |
| NetworkDataValidation.RouteSubTlvsUniqueAppend | src/core/thread/network_data_leader_ftd.cpp:443-480 | a Has Route or Border Router sub-TLV that is not a repeat and has the RLOC16's single entry keeps the Prefix TLV's sub-TLVs acceptable and records its kind |
| NetworkDataValidation.AnyRouteSubTlvFound | src/core/thread/network_data_leader_ftd.cpp:488-491 | the four found flags are set exactly when some Has Route or Border Router sub-TLV was seen |
| NetworkDataValidation.ServerSubTlvsUniqueBroken | src/core/thread/network_data_leader_ftd.cpp:512-519 | a second Server sub-TLV, or one that is invalid or for another RLOC16, makes the Service TLV invalid whatever follows |
| NetworkDataValidation.ServerSubTlvsUniqueAppend | src/core/thread/network_data_leader_ftd.cpp:512-520 | a first Server sub-TLV for the RLOC16, or any other sub-TLV, keeps the Service TLV's sub-TLVs acceptable |
| NetworkDataValidation.ValidatePrefix | src/core/thread/network_data_leader_ftd.cpp:416-495 | Parse or NoError, and NoError exactly when the sub-TLVs split, hold at most one stable and one temporary Has Route and Border Router sub-TLV each, each with the RLOC16's single entry, and at least one of them |
| NetworkDataValidation.ValidateService | src/core/thread/network_data_leader_ftd.cpp:497-535 | Parse or NoError, and NoError exactly when the sub-TLVs split and hold exactly one Server sub-TLV, valid and for the RLOC16 |
| NetworkDataValidation.Validate | src/core/thread/network_data_leader_ftd.cpp:357-414 | Parse or NoError, and NoError exactly when the bytes split into TLVs, every Prefix and Service TLV is valid and repeats no earlier one, and each one's sub-TLVs pass ValidatePrefix or ValidateService |
| NetworkDataValidation.InvalidTlvSpoils | src/core/thread/network_data_leader_ftd.cpp:370-409 | one invalid TLV makes the whole registration rejected |
| NetworkDataValidation.AllTlvsValidAppend | src/core/thread/network_data_leader_ftd.cpp:372-409 | a valid TLV after valid ones keeps the registration acceptable so far |
| NetworkDataValidation.WellFormedHasNoDuplicatePrefix | src/core/thread/network_data_leader_ftd.cpp:380-382 | an accepted registration holds no two Prefix TLVs for the same prefix |
| NetworkDataValidation.WellFormedEdges | src/core/thread/network_data_leader_ftd.cpp:366-370 | an empty registration is accepted, and one whose first TLV overruns the end is not |
| NetworkDataLeader.RemoveRlocInHasRoute | src/core/thread/network_data_leader_ftd.cpp:1179-1206 | the Has Route entries kept are those, in order, that do not match the RLOC16 or that the exclude prefix holds, and the flags record one update per entry removed |
| NetworkDataLeader.RemoveRlocInBorderRouter | src/core/thread/network_data_leader_ftd.cpp:1208-1235 | the same for the entries of a Border Router sub-TLV |
| NetworkDataLeader.RemoveRlocInService | src/core/thread/network_data_leader_ftd.cpp:1151-1177 | the sub-TLVs kept are all but the matching Server sub-TLVs the exclude service does not hold, and the flags record each removal with the server's stable flag |
| NetworkDataLeader.RemoveRlocInSubTlvs | src/core/thread/network_data_leader_ftd.cpp:1100-1133 | every Has Route and Border Router sub-TLV loses its removable entries and is dropped when left empty; the flags record each removal |
| NetworkDataLeader.RemoveContextInPrefix | src/core/thread/network_data_leader_ftd.cpp:1258-1275 | the prefix's sub-TLVs lose exactly the Context sub-TLVs with the ID |
| NetworkDataLeader.RemoveContextInTlvs | src/core/thread/network_data_leader_ftd.cpp:1237-1254 | every Prefix TLV loses that context and is then updated or, when left empty, removed |
| NetworkDataLeader.UpdateTlv | src/core/thread/network_data_leader_ftd.cpp:625-651 | a TLV without sub-TLVs is removed; otherwise it is stable exactly when some sub-TLV is |
| NetworkDataLeader.ContainsMatchingEntry | src/core/thread/network_data_leader_ftd.cpp:545-619 | true exactly when an equal element is in the sub-TLV scanned: a Has Route entry, a Border Router entry, or a Server sub-TLV with its stable flag |
| NetworkDataLeader.AllocateServiceId | src/core/thread/network_data_leader_ftd.cpp:972-999 | NotFound exactly when IDs 0 to 15 are all in use; otherwise the lowest service ID no Service TLV carries |
| NetworkDataLeader.FindServiceById | src/core/thread/network_data_leader_ftd.cpp:1001-1015 | true exactly when some Service TLV carries the ID |
| NetworkDataLeader.OfferedContextId | src/core/thread/network_data_leader_ftd.cpp:884-889 | an offered context ID is in range and unallocated, and none is offered to a prefix without a context only when all fifteen are taken |
| NetworkDataLeader.AddBorderRouterEntry | src/core/thread/network_data_leader_ftd.cpp:918-940 | the tail of AddBorderRouter gives the result of the specification EntryAdded, and the flags change exactly when a new entry went in |
| NetworkDataLeader.AddHasRouteToSubs | src/core/thread/network_data_leader_ftd.cpp:838-873 | NoError or NoBufs, NoError exactly when the added Has Route sub-TLV and entry fit in the room; the sub-TLVs change only on NoError, and the change is reported only when the entry was not there |
| NetworkDataLeader.AddBorderRouterToSubs | src/core/thread/network_data_leader_ftd.cpp:875-941 | the result is the specification BorderRouterAdded, and the flags change exactly on a successful insertion of a new entry |
| NetworkDataLeader.AddBorderRouterToTlvs | src/core/thread/network_data_leader_ftd.cpp:875-941 | the Prefix TLV gets the edited sub-TLVs, and the Network Data still fits in kMaxSize with every context ID in range |
| NetworkDataLeader.BumpedWraps | src/core/thread/network_data_leader_ftd.cpp:1237-1256 | n increments of a uint8 version number are one addition of n modulo 256 |
| NetworkDataLeader.Leader.constructor | src/core/thread/network_data_leader_ftd.cpp:1438-1444 | every context ID from kMinId to kMaxId starts unallocated, as ContextIds::Clear leaves them; the TLVs start empty and the versions as given (Leader::Reset, in network_data_leader.cpp, is not part of this model) |
| NetworkDataLeader.Leader.IncrementVersions | src/core/thread/network_data_leader_ftd.cpp:83-100 | the version moves on by one modulo 256, and the stable version only when asked to |
| NetworkDataLeader.Leader.IncrementVersionsFor | src/core/thread/network_data_leader_ftd.cpp:75-81 | nothing moves when nothing changed; otherwise the version, and the stable version when a stable part changed |
| NetworkDataLeader.Leader.RemoveRlocInPrefix | src/core/thread/network_data_leader_ftd.cpp:1088-1149 | the prefix becomes the specification PrefixRlocRemoved, the flags record the removals, and the context IDs take the prefix's context action |
| NetworkDataLeader.Leader.RemoveRlocInTlv | src/core/thread/network_data_leader_ftd.cpp:1039-1083 | one TLV of RemoveRloc: a Prefix or Service TLV is pruned and then updated or removed, with its flags and context action |
| NetworkDataLeader.Leader.RemoveRloc | src/core/thread/network_data_leader_ftd.cpp:1017-1086 | the Network Data becomes RlocRemoved of the old one, the flags RlocRemovedFlags, and the context IDs take the actions of the prefixes in order, the leader staying valid |
| NetworkDataLeader.Leader.AddHasRoute | src/core/thread/network_data_leader_ftd.cpp:838-873 | NoError or NoBufs, NoError exactly when the edited Network Data fits in kMaxSize; on NoError the entry is where ContainsMatchingEntry finds it, on NoBufs nothing changed |
| NetworkDataLeader.Leader.AddServer | src/core/thread/network_data_leader_ftd.cpp:943-970 | NoError or NoBufs, NoError exactly when the edited Network Data fits; on NoError the Server sub-TLV is in the service, on NoBufs nothing changed |
| NetworkDataLeader.Leader.AddBorderRouter | src/core/thread/network_data_leader_ftd.cpp:875-941 | the prefix gets the sub-TLVs of BorderRouterAdded given the ID GetUnallocatedId offers, and the context's ID is marked in use |
| NetworkDataLeader.Leader.RemoveContext | src/core/thread/network_data_leader_ftd.cpp:1237-1256 | no Prefix TLV keeps a Context sub-TLV with the ID, the Network Data is ContextRemoved of the old one, and both versions move on |
| NetworkDataLeader.Leader.SetCommissioningData | src/core/thread/network_data_leader_ftd.cpp:1342-1396 | NoError or NoBufs, NoError exactly when the data fits once the old Commissioning Data TLV is gone; then the old TLV is replaced by a new one appended and the version, not the stable version, moves on; on NoBufs nothing changes |
| NetworkDataLeader.Leader.SweepId | src/core/thread/network_data_leader_ftd.cpp:1510-1522 | an expired ID is unallocated and removed from the Network Data, with both versions moved on; a waiting ID hands back its remove time; nothing else changes |
| NetworkDataLeader.Leader.HandleTimer | src/core/thread/network_data_leader_ftd.cpp:1500-1525 | every expired context ID is unallocated and its context removed from the Network Data, each removal moving both versions on, and the timer is rearmed for the earliest remove time still to come |
| NetworkDataLeaderEdits.FindSub | src/core/thread/network_data_leader_ftd.cpp:877-878 | the index of the first sub-TLV of the kind (and stable flag, when given), with none of that kind before it, or none when there is none |
| NetworkDataLeaderEdits.FindSubUpdate | src/core/thread/network_data_leader_ftd.cpp:918-922 | rewriting a sub-TLV without changing its kind or stable flag leaves FindSubTlv's answer alone |
| NetworkDataLeaderEdits.FindSubAppend | src/core/thread/network_data_leader_ftd.cpp:850-852 | appending a sub-TLV changes FindSubTlv's answer only when nothing was found before |
| NetworkDataLeaderEdits.FindPrefix | src/core/thread/network_data_leader_ftd.cpp:1044-1045 | a Prefix TLV of the exclude data with the same prefix, or none when no TLV has it |
| NetworkDataLeaderEdits.FindService | src/core/thread/network_data_leader_ftd.cpp:1061-1062 | a Service TLV with the same enterprise number and service data, or none when no TLV has them |
| NetworkDataLeaderEdits.FindCommissioningData | src/core/thread/network_data_leader_ftd.cpp:1351 | the index of the first Commissioning Data TLV, or none when there is none |
| NetworkDataLeaderEdits.KeptRoutesMembership | src/core/thread/network_data_leader_ftd.cpp:1193-1205 | RemoveRlocInHasRoute keeps an entry exactly when it was there and does not match, or the exclude prefix holds it |
| NetworkDataLeaderEdits.KeptRoutersMembership | src/core/thread/network_data_leader_ftd.cpp:1222-1234 | RemoveRlocInBorderRouter keeps an entry exactly when it was there and does not match, or the exclude prefix holds it |
| NetworkDataLeaderEdits.KeptServersMembership | src/core/thread/network_data_leader_ftd.cpp:1163-1176 | RemoveRlocInService keeps a sub-TLV exactly when it was there and is not a matching Server sub-TLV missing from the exclude service |
| NetworkDataLeaderEdits.KeptServersSize | src/core/thread/network_data_leader_ftd.cpp:1163-1176 | RemoveRlocInService never grows the service |
| NetworkDataLeaderEdits.PrunedSubsClean | src/core/thread/network_data_leader_ftd.cpp:1100-1133 | after RemoveRlocInPrefix's loop no sub-TLV is larger, no Has Route or Border Router sub-TLV is empty, and none holds a removable entry |
| NetworkDataLeaderEdits.PrunedSubsInRange | src/core/thread/network_data_leader_ftd.cpp:1100-1133 | the loop writes no Context sub-TLV with an ID out of range |
| NetworkDataLeaderEdits.ContextStepFacts | src/core/thread/network_data_leader_ftd.cpp:1136-1148 | the context step rewrites only the first context's compress flag, which then tracks whether a Border Router sub-TLV is left; sizes and stable flags stay |
| NetworkDataLeaderEdits.UpdatedTlvFacts | src/core/thread/network_data_leader_ftd.cpp:625-651 | UpdateTlv never grows a TLV, and a TLV it keeps has sub-TLVs and a stable flag set exactly when some sub-TLV is stable |
| NetworkDataLeaderEdits.RlocRemovedTlvFacts | src/core/thread/network_data_leader_ftd.cpp:1039-1083 | one TLV after RemoveRloc is no larger, clean, and keeps its context IDs in range |
| NetworkDataLeaderEdits.RlocRemovedFacts | src/core/thread/network_data_leader_ftd.cpp:1024-1086 | RemoveRloc never grows the Network Data and leaves no empty Prefix or Service TLV, no empty Has Route or Border Router sub-TLV, no entry of the RLOC16 the exclude data lacks, stable flags recomputed, and compress flags set exactly where a border router remains |
| NetworkDataLeaderEdits.ContextRemovedSubsFacts | src/core/thread/network_data_leader_ftd.cpp:1258-1275 | RemoveContext on one prefix never grows it and leaves no Context sub-TLV with the ID |
| NetworkDataLeaderEdits.ContextRemovedFacts | src/core/thread/network_data_leader_ftd.cpp:1237-1254 | RemoveContext never grows the Network Data, leaves no Prefix TLV with that context and none without sub-TLVs |
| NetworkDataLeaderEdits.ContextRemovedSubsKeeps | src/core/thread/network_data_leader_ftd.cpp:1258-1275 | removing one context ID keeps every other context ID of the prefix and adds none |
| NetworkDataLeaderEdits.ContextRemovedKeepsFree | src/core/thread/network_data_leader_ftd.cpp:1237-1254 | RemoveContext gives no Prefix TLV a context ID that none carried |
| NetworkDataLeaderEdits.ContextsRemovedFrees | src/core/thread/network_data_leader_ftd.cpp:1508-1520 | after the timer sweep's removals no Prefix TLV carries any of the removed IDs, and the Network Data has not grown |
| NetworkDataLeaderEdits.HasRouteAddedFacts | src/core/thread/network_data_leader_ftd.cpp:838-873 | AddHasRoute leaves the entry where ContainsMatchingEntry finds it, is idempotent, changes nothing exactly when the entry was there, and grows the prefix by a Has Route sub-TLV and an entry, by one entry, or not at all |
| NetworkDataLeaderEdits.EnsuredFacts | src/core/thread/network_data_leader_ftd.cpp:845-858 | after inserting a missing sub-TLV, FindSubTlv finds it, other searches are unchanged, and the size grows by exactly that sub-TLV |
| NetworkDataLeaderEdits.EnsuredInRange | src/core/thread/network_data_leader_ftd.cpp:907-915 | inserting a Context sub-TLV with an in-range ID keeps every context ID in range |
| NetworkDataLeaderEdits.EntryAddedFits | src/core/thread/network_data_leader_ftd.cpp:918-940 | the last stage of AddBorderRouter fails only with NoBufs, always marks the context's ID in use, and fits in its room |
| NetworkDataLeaderEdits.EntryAddedInRange | src/core/thread/network_data_leader_ftd.cpp:918-940 | the last stage writes no Context sub-TLV with an ID out of range |
| NetworkDataLeaderEdits.EntryAddedHolds | src/core/thread/network_data_leader_ftd.cpp:918-940 | on success the entry is where ContainsMatchingEntry finds it, beside a first context that compresses and is stable when the entry is |
| NetworkDataLeaderEdits.BorderRouterAddedFits | src/core/thread/network_data_leader_ftd.cpp:875-941 | AddBorderRouter fails with NotFound, changing nothing, exactly when a context is needed and no ID is free; otherwise NoError or NoBufs; what it writes fits in the room |
| NetworkDataLeaderEdits.BorderRouterAddedHolds | src/core/thread/network_data_leader_ftd.cpp:875-941 | after success the entry is where ContainsMatchingEntry finds it and the first context compresses, is stable when the entry is, and has the ID marked in use |
| NetworkDataLeaderEdits.BorderRouterAddedInRange | src/core/thread/network_data_leader_ftd.cpp:875-941 | AddBorderRouter only creates a context with the free ID and marks an in-range ID in use |
| NetworkDataLeaderEdits.ServerAddedFacts | src/core/thread/network_data_leader_ftd.cpp:943-970 | AddServer leaves the Server sub-TLV in the service, is idempotent, and appends at most that sub-TLV |
| NetworkDataLeaderEdits.CommissioningDataSetSize | src/core/thread/network_data_leader_ftd.cpp:1348-1374 | the size changes by the new TLV's less the old one's, as the room check computes |
| NetworkDataLeaderEdits.CommissioningDataSetSingle | src/core/thread/network_data_leader_ftd.cpp:1342-1384 | the leader keeps at most one Commissioning Data TLV, and afterwards it is the new one, last |
| NetworkDataLeaderEdits.CommissioningDataSetInRange | src/core/thread/network_data_leader_ftd.cpp:1342-1384 | setting Commissioning Data touches no Prefix TLV, so context IDs stay in range |
| NetworkDataPublisher.Armed | src/core/thread/network_data_publisher.cpp:299 | FireAtIfEarlier: the shared timer then fires no later than the asked time, and is untouched when nothing is asked |
| NetworkDataPublisher.PreferenceDecides | src/core/thread/network_data_publisher.cpp:262-273 | between two distinct devices exactly one defers to the other, and no device prefers its own entry |
| NetworkDataPublisher.PreferenceTransitive | src/core/thread/network_data_publisher.cpp:262-273 | the preference between devices is transitive |
| NetworkDataPublisher.UpdateStateTransitions | src/core/thread/network_data_publisher.cpp:275-351 | ToAdd starts Adding exactly when there are fewer entries than desired, Adding falls back exactly when there are enough, Added starts Removing exactly when there are too many, Removing goes back to Added exactly when there are no longer too many; the timer is asked only on a move to Adding or Removing, for the update time, and nothing else changes |
| NetworkDataPublisher.UpdateStateSettles | src/core/thread/network_data_publisher.cpp:275-351 | with the same counts a second UpdateState changes nothing |
| NetworkDataPublisher.UpdateStateDelays | src/core/thread/network_data_publisher.cpp:290-334 | adding waits the random delay; removing waits the random delay plus kExtraDelayToRemovePreferred exactly when fewer entries than desired are preferred over ours |
| NetworkDataPublisher.UpdateStateDelaysWithin | src/core/thread/network_data_publisher.cpp:297-325 | with the delay drawn from 1 to kMaxDelayToAdd (resp. kMaxDelayToRemove), adding starts between 1 and kMaxDelayToAdd ms from now, and removing between 1 and kMaxDelayToRemove ms, plus kExtraDelayToRemovePreferred when our entry is preferred |
| NetworkDataPublisher.TimerActsWhenDue | src/core/thread/network_data_publisher.cpp:353-380 | only an Adding or Removing entry whose update time has come acts: Removing goes back to ToAdd, Adding becomes Added exactly when the local edit succeeds; before its time the entry asks the timer for its update time |
| NetworkDataPublisher.RemoveSetsState | src/core/thread/network_data_publisher.cpp:902-924 | Remove always leaves the given next state and changes nothing else, and takes the entry out of the Network Data, with a notification, exactly from Added or Removing |
| NetworkDataPublisher.PublishDescribes | src/core/thread/network_data_publisher.cpp:799-840 | after Publish the entry holds the new prefix, flags, type and requester; republishing what an entry in use holds changes nothing else |
| NetworkDataPublisher.PublishState | src/core/thread/network_data_publisher.cpp:808-834 | a changed publish leaves the entry ToAdd, or Added exactly when it was in the Network Data with the same type and the immediate re-add succeeded |
| NetworkDataPublisher.ProcessNeedsAttached | src/core/thread/network_data_publisher.cpp:936-940 | Process changes nothing while detached or for an entry not in use |
| NetworkDataPublisher.ReplaceFacts | src/core/thread/network_data_publisher.cpp:816-826 | a replaced entry is Added under the new prefix and flags after a successful re-add, and otherwise not in use |
| NetworkDataPublisher.OnMeshCandidates | src/core/thread/network_data_publisher.cpp:973-977 | each Border Router entry is read as its RLOC16, its flags without preference and its preference |
| NetworkDataPublisher.ExternalRouteCandidates | src/core/thread/network_data_publisher.cpp:1020-1024 | each Has Route entry is read as its RLOC16, its flags without preference and its preference |
| NetworkDataPublisher.CountBounds | src/core/thread/network_data_publisher.cpp:960-1052 | the preferred entries are among the counted ones, and no more are counted than there are entries |
| NetworkDataPublisher.LowerPreferenceNotCounted | src/core/thread/network_data_publisher.cpp:979-991 | an entry at a lower preference than ours, or with other flags, changes neither count |
| NetworkDataPublisher.CountMatchingEntries | src/core/thread/network_data_publisher.cpp:960-1052 | one pass counts exactly the entries with our flags at our preference or higher, and the preferred ones among them |
| NetworkDataPublisher.MatchIndexIsFirst | src/core/thread/network_data_publisher.cpp:191-205 | the first in-use entry for the prefix, or none when there is none |
| NetworkDataPublisher.FreeIndexIsFirst | src/core/thread/network_data_publisher.cpp:149-167 | the first entry not in use, or none when all are in use |
| NetworkDataPublisher.FindOrAllocateSound | src/core/thread/network_data_publisher.cpp:140-184 | the entry handed out is in use for this prefix, or free, with no entry in use for the prefix and the requester under its limit; none exactly when no entry is in use for the prefix and the requester is at its limit or every entry is in use |
| NetworkDataPublisher.TimerSweep | src/core/thread/network_data_publisher.cpp:233-245 | the timer sweep keeps one entry per slot |
| NetworkDataPublisher.TimerSweepPointwise | src/core/thread/network_data_publisher.cpp:233-245 | every entry ends as its own HandleTimer leaves it |
| NetworkDataPublisher.TimerSweepArms | src/core/thread/network_data_publisher.cpp:233-245 | once any entry asks for the timer, the sweep leaves it running |
| NetworkDataPublisher.Publisher.constructor | src/core/thread/network_data_publisher.cpp:48-67 | every entry starts unused, the timer stopped |
| NetworkDataPublisher.Publisher.SetState | src/core/thread/network_data_publisher.cpp:250-260 | only the entry's state changes |
| NetworkDataPublisher.Publisher.UpdateState | src/core/thread/network_data_publisher.cpp:275-351 | the entry and the timer become those of UpdateState with kExtraDelayToRemovePreferred |
| NetworkDataPublisher.Publisher.Add | src/core/thread/network_data_publisher.cpp:857-878 | the entry becomes Added, with the notifier and callback effects, exactly as AddStep on the local edit's result |
| NetworkDataPublisher.Publisher.Remove | src/core/thread/network_data_publisher.cpp:902-924 | the entry and effects become those of RemoveStep |
| NetworkDataPublisher.Publisher.HandleEntryTimer | src/core/thread/network_data_publisher.cpp:353-380 | the entry, timer and effects become those of TimerStep |
| NetworkDataPublisher.Publisher.Process | src/core/thread/network_data_publisher.cpp:926-958 | the entry, timer and effects become those of ProcessStep |
| NetworkDataPublisher.Publisher.Publish | src/core/thread/network_data_publisher.cpp:799-840 | Publish followed by Process, in that order |
| NetworkDataPublisher.Publisher.PublishEntry | src/core/thread/network_data_publisher.cpp:799-837 | the entry and effects become those of PublishStep |
| NetworkDataPublisher.Publisher.FreshEntry | src/core/thread/network_data_publisher.cpp:829-837 | the entry takes the new type, prefix and flags and is ToAdd |
| NetworkDataPublisher.Publisher.Replace | src/core/thread/network_data_publisher.cpp:816-826 | the entry and effects become those of ReplaceStep |
| NetworkDataPublisher.Publisher.FindOrAllocatePrefixEntry | src/core/thread/network_data_publisher.cpp:140-184 | the entry FindOrAllocate names, found by one pass that counts the requester's entries |
| NetworkDataPublisher.Publisher.FindMatchingPrefixEntry | src/core/thread/network_data_publisher.cpp:191-205 | the first in-use entry for the prefix, by one pass |
| NetworkDataPublisher.Publisher.IsPrefixAdded | src/core/thread/network_data_publisher.cpp:112-124 | true exactly when the first in-use entry for the prefix is Added |
| NetworkDataPublisher.Publisher.UnpublishPrefix | src/core/thread/network_data_publisher.cpp:126-138 | NotFound, changing nothing, exactly when no entry is in use for the prefix; otherwise that entry is removed to NoEntry |
| NetworkDataPublisher.Publisher.PublishPrefix | src/core/thread/network_data_publisher.cpp:71-110 | InvalidArgs for an invalid or non-stable configuration; NoBufs exactly when no entry can be found or allocated; an error changes no entry, neither the timer nor the effects; otherwise NoError with the entry published and processed, the timer asked for the time the processing step needs, and the Publish effects then the Process effects appended |
| NetworkDataPublisher.Publisher.HandleTimer | src/core/thread/network_data_publisher.cpp:233-245 | the entries, timer and effects become those of the timer sweep over every entry in order |
| Ip6.DscpClass | src/core/net/ip6.cpp:110 | the class-selector bits of a DSCP value: a multiple of eight, no more than CS7 |
| Ip6.DscpToPriority | src/core/net/ip6.cpp:107-137 | a DSCP value never maps to the net priority |
| Ip6.PriorityToDscp | src/core/net/ip6.cpp:139-160 | every priority is written as a pure class selector |
| Ip6.PriorityRoundTrip | src/core/net/ip6.cpp:107-160 | a priority written into the traffic class reads back the same, except net, which reads back as normal |
| Ip6.DscpClassDecides | src/core/net/ip6.cpp:107-137 | the priority depends on the class-selector bits alone, and the selector a priority is written as reads back as that priority |
| Ip6.TransportFilter | src/core/net/ip6.cpp:1246-1282 | after the hop-limit check the ICMPv6 and TMF filters either forward the datagram or reject it |
| Ip6.ForwardThread | src/core/net/ip6.cpp:1234-1282 | a forwarded datagram leaves with a positive hop limit, and a datagram is not routed exactly when it came from the Thread interface to a device that is not a router or leader |
| Ip6.ForwardedIcmpListed | src/core/net/ip6.cpp:1246-1282 | forwarded ICMPv6 is one of the six kForwardIcmpTypes, and forwarded UDP from an untrusted host never goes to the TMF port |
| Ip6.ForwardDecrements | src/core/net/ip6.cpp:1236-1242 | a Thread-origin datagram with a hop limit of at least one leaves with one less, and never when it arrived with one; a host-origin datagram keeps its hop limit |
| Ip6.ZeroHopLimitForwarded | src/core/net/ip6.cpp:1236-1242 | as written, a Thread-origin datagram arriving with hop limit 0 is forwarded with hop limit 255 |
| Ip6.ForwardThreadCorrected | src/core/net/ip6.cpp:1236-1242 | the forwarding step with a received hop limit of 0 discarded: a forwarded datagram leaves with a positive hop limit |
| Ip6.ForwardCorrectedDecrements | src/core/net/ip6.cpp:1236-1242 | with the correction a forwarded Thread-origin datagram always leaves with one less than it came with, and every other case is as written |
| Ip6.MakeDivisibleByEight | src/core/net/ip6.cpp:555-556 | the value rounded down to a multiple of eight |
| Ip6.MaxPayloadFragment | src/core/net/ip6.cpp:555-556 | the maximum fragment payload is a multiple of eight |
| Ip6.MaxPayloadFits | src/core/net/ip6.cpp:555-556 | every fragment, headers and fragment header included, fits the 1280-byte minimum MTU, wasting less than eight bytes of it, and carries at least eight bytes when there is room |
| Ip6.BareHeaderMaximum | src/core/net/ip6.cpp:555-556 | behind a bare 40-byte IPv6 header a fragment carries at most 1232 payload bytes |
| Ip6.Planned | src/core/net/ip6.cpp:567-608 | the fragment loop as written: no more fragments are sent than the pool can provide |
| Ip6.FragmentDatagram | src/core/net/ip6.cpp:545-621 | Parse, sending nothing, when the IPv6 header cannot be read; otherwise the fragments of the corrected plan, with NoBufs exactly when the pool ran dry first |
| Ip6.PlanCoversPayload | src/core/net/ip6.cpp:567-608 | when the pool does not run dry, the fragments carry exactly the payload |
| Ip6.PlanOffsets | src/core/net/ip6.cpp:584-585 | fragment k carries the offset field of fragment number k |
| Ip6.PlanLengths | src/core/net/ip6.cpp:569-582 | no fragment is longer than the maximum, all but the last are exactly the maximum, and as written M is set exactly on the fragments of maximum length |
| Ip6.FragmentOffsetsContiguous | src/core/net/ip6.cpp:584-600 | fragment k of the datagram sent names in its offset field the byte where its payload starts, k times the maximum |
| Ip6.OffsetFieldBytes | src/core/net/ip6.cpp:584-599 | an offset field read back in bytes is the count times the maximum while that fits 16 bits |
| Ip6.ExactMultipleNeverEnds | src/core/net/ip6.cpp:569-582 | as written, a payload that is an exact multiple of the maximum goes out with M set on every fragment |
| Ip6.MultipleNeverEnds | src/core/net/ip6.cpp:569-582 | as written, n full fragments all have M set |
| Ip6.TwoFullFragmentsBothMore | src/core/net/ip6.cpp:555-608 | as written, 2464 payload bytes behind a 40-byte header go out as two 1232-byte fragments that both have M set |
| Ip6.PlannedCorrected | src/core/net/ip6.cpp:567-608 | the fragments with M cleared on the fragment that carries the rest of the payload: no more than the pool provides |
| Ip6.CorrectedLastClearsMore | src/core/net/ip6.cpp:569-582 | with the correction M is clear on the last fragment and set on every other |
| Ip6.CorrectedCoversPayload | src/core/net/ip6.cpp:567-608 | the correction carries exactly the payload |
| Ip6.CorrectedSameShape | src/core/net/ip6.cpp:569-585 | the correction changes only M flags: as many fragments, each with the offset and length the loop as written gives it, and the same pool outcome |
| Ip6.FirstMatch | src/core/net/ip6.cpp:643-653 | the first reassembly with the fragment's identification, source and destination, with none before it, or none when there is none |
| Ip6.FindReassembly | src/core/net/ip6.cpp:643-653 | the search loop finds exactly that first reassembly |
| Ip6.Reassembler.HandleFragment | src/core/net/ip6.cpp:623-731 | NoError exactly for an unfragmented datagram, with the offset moved past the fragment header and the list untouched; every other message is dropped, a readable fragment updating the reassembly list; a delivered datagram is within kMaxAssembledDatagramLength and came with M clear |
| Ip6.Reassembler.AddFragment | src/core/net/ip6.cpp:655-711 | a real fragment ends its reassembly when it would exceed kMaxAssembledDatagramLength, and otherwise is stored, the list growing by at most one |
| Ip6.Reassembler.StoreFragment | src/core/net/ip6.cpp:667-711 | without a buffer to allocate or grow, the reassembly ends; otherwise the buffer is started or grown, kept while M is set and delivered and removed when M is clear |
| Ip6.Grown | src/core/net/ip6.cpp:683-687 | the buffer is at least what the fragment needs and never shrinks |
| Ip6.MatchLength | src/core/net/ip6.cpp:1331-1341 | the prefix match with the destination, capped at the address's prefix length |
| Ip6.Scan | src/core/net/ip6.cpp:1319-1393 | the best address is never an anycast locator, a scan that stopped did so at the destination itself, and otherwise the recorded match length is the best address's |
| Ip6.ScanStays | src/core/net/ip6.cpp:1343-1347 | once the scan finds the destination itself, later addresses change nothing |
| Ip6.SelectSourceAddress | src/core/net/ip6.cpp:1312-1397 | the address the scan ends with, by one pass over the interface's addresses |
| Ip6.ScanNullIff | src/core/net/ip6.cpp:1325-1329 | the result is null exactly when every address is an anycast locator |
| Ip6.ScanPrefersDestination | src/core/net/ip6.cpp:1343-1348 | when the destination is a non-anycast address of the interface, it is chosen |
| Ip6.ScanEqualScope | src/core/net/ip6.cpp:1363-1380 | among addresses of one scope the chosen one is preferred unless all are deprecated, and no address as preferred matches the destination with a longer prefix |
| Nd6.DivideAndRoundUp | src/core/net/nd6.cpp:200 | the quotient rounded up: the least count of units that covers the size |
| Nd6.Validate | src/core/net/nd6.cpp:71-79 | an option is accepted exactly when its header fits before the end, its length is non-zero and it ends no later than the end; an accepted option is at least eight bytes |
| Nd6.Advance | src/core/net/nd6.cpp:69 | advancing keeps the iterator sound and its end unchanged |
| Nd6.AdvanceSteps | src/core/net/nd6.cpp:64-69 | a null iterator stays null; the next option starts where the current one ends, at least eight bytes later, and lies wholly before the end |
| Nd6.Walk | src/core/net/nd6.cpp:54-79 | every option the iteration visits lies between its start and the end of the options |
| Nd6.WalkTiles | src/core/net/nd6.cpp:54-79 | the visited options tile the bytes: the first starts at the start and each one starts where the previous one ends |
| Nd6.PreferenceField | src/core/net/nd6.cpp:122-125 | the two preference bits read out are a value below four |
| Nd6.PreferenceRoundTrip | src/core/net/nd6.cpp:116-125 | a preference set into the flags byte reads back unchanged and the bits outside the preference field are kept |
| Nd6.PrefixInfoForValid | src/core/net/nd6.cpp:295-314 | the Prefix Information option appended for a prefix is valid exactly when its preferred lifetime does not exceed its valid lifetime |
| Nd6.OptionLengthForPrefix | src/core/net/nd6.cpp:143-171 | the Route Information option length is one, two or three units |
| Nd6.OptionLengthFitsPrefix | src/core/net/nd6.cpp:143-171 | the computed length is the shortest one whose units after the first hold the prefix bytes |
| Nd6.RouteInfoPreferenceCheckVacuous | src/core/net/nd6.cpp:136-141 | as written, the preference check of RouteInfoOption::IsValid accepts every option, because the reserved value reads as medium |
| Nd6.ReservedPreferenceAccepted | src/core/net/nd6.cpp:136-141 | a Route Information option carrying the reserved preference 10 passes as valid |
| Nd6.RouteInfoCorrectedRejectsReserved | src/core/net/nd6.cpp:136-141 | the corrected rule rejects exactly the options with the reserved preference, and an accepted option reads back the preference its bits encode |
| Nd6.RouteInfoForValid | src/core/net/nd6.cpp:316-333 | the Route Information option appended for a prefix is valid under both rules, reads back its preference, and its length holds the prefix bytes |
| Nd6.RdnssOptionLength | src/core/net/nd6.cpp:196-201 | up to 127 addresses the RDNSS option length is one unit plus two per address, exactly its size; from 127 on it saturates at 255 |
| Nd6.LinkLayerUnits | src/core/net/nd6.cpp:271-274 | the option size in units is the header plus the address rounded up to the next multiple of eight |
| Nd6.LinkLayerOptionSize | src/core/net/nd6.cpp:265-290 | the link-layer option carries its type, the address after the header, fewer than eight padding bytes, ends on an eight-byte boundary and its length byte counts its units |
| Nd6.LinkLayerOptionIterates | src/core/net/nd6.cpp:265-290 | an appended link-layer option is found valid by the option iterator where it was put, and it ends at the end of the message |
| Nd6.TxMessage.constructor | src/core/net/nd6.cpp:249-263 | a transmit message starts empty with its capacity |
| Nd6.TxMessage.PushBack | src/core/net/nd6.cpp:258 | a byte is appended when there is room, otherwise NoBufs and the buffer is unchanged |
| Nd6.TxMessage.AppendBytes | src/core/net/nd6.cpp:249-263 | the source bytes, or zeros for a null source, are appended as far as they fit; NoError exactly when all fit, otherwise NoBufs |
| Nd6.TxMessage.AppendOption | src/core/net/nd6.cpp:231-247 | the zeroed option space is reserved and its start returned exactly when it fits; otherwise null, with what fitted left in place |
| Nd6.TxMessage.AppendLinkLayerOption | src/core/net/nd6.cpp:265-290 | the buffer grows by the link-layer option bytes as far as they fit; NoError exactly when the whole option fits, otherwise NoBufs |
| Nd6.TxMessage.AppendPadding | src/core/net/nd6.cpp:283-286 | zero padding from the size up to the rounded option size is appended as far as it fits; NoError exactly when it all fits |
| DnsTypes.FlagOffset | src/core/net/dns_types.hpp:349-358 | each header flag bit sits within its flag byte |
| DnsTypes.CountIndex | src/core/net/dns_types.hpp:360-365 | the four section counts lie after the ID and the flag bytes, inside the twelve-byte header |
| DnsTypes.BigEndian16RoundTrip | src/core/net/dns_types.hpp:91-98 | a 16-bit field stored big-endian reads back the value written |
| DnsTypes.FlagsByte0ReadBack | src/core/net/dns_types.hpp:122-204 | QR, OpCode, AA, TC and RD packed into the first flag byte each read back as packed |
| DnsTypes.FlagsByte1ReadBack | src/core/net/dns_types.hpp:216-262 | RA and RCODE packed into the second flag byte each read back as packed |
| DnsTypes.EncodeCounts | src/core/net/dns_types.hpp:296-345 | the header bytes carry each section count in big-endian order at its place |
| DnsTypes.DecodeEncode | src/core/net/dns_types.hpp:84-365 | every header field a twelve-byte header can hold is read back by the getters after the setters wrote it |
| DnsTypes.EncodeFlags | src/core/net/dns_types.hpp:122-262 | the encoded header reports every flag and field the fields name |
| DnsTypes.WithMessageId | src/core/net/dns_types.hpp:98 | SetMessageId changes the message ID and no other field |
| DnsTypes.WriteQr | src/core/net/dns_types.hpp:129 | writing the QR bit leaves the other bits of the first flag byte |
| DnsTypes.WithMessageType | src/core/net/dns_types.hpp:129 | SetType changes the query/response bit and no other field |
| DnsTypes.WriteOpCode | src/core/net/dns_types.hpp:156 | writing the OpCode keeps the bits outside its four-bit field |
| DnsTypes.WithQueryType | src/core/net/dns_types.hpp:156 | SetQueryType changes the OpCode, to the low four bits of the value, and no other field; the value reads back exactly when it fits in four bits |
| DnsTypes.UpdateFlagsByte0Bit | src/core/net/dns_types.hpp:164-204 | setting or clearing AA, TC or RD changes only that bit of the first flag byte |
| DnsTypes.UpdateFlagsByte1Bit | src/core/net/dns_types.hpp:216-226 | setting or clearing RA changes only that bit of the second flag byte |
| DnsTypes.WithFlag | src/core/net/dns_types.hpp:164-226 | setting or clearing a flag makes it read back as set or clear and changes no other field |
| DnsTypes.WriteRCode | src/core/net/dns_types.hpp:262-265 | writing RCODE keeps the high four bits of the second flag byte |
| DnsTypes.WithResponseCode | src/core/net/dns_types.hpp:262-265 | SetResponseCode stores the low four bits of the code and no other field; the code reads back exactly when it is below 16 |
| DnsTypes.WithCount | src/core/net/dns_types.hpp:296-345 | setting a section count makes it read back and changes no other field |
| DnsTypes.CountWritten | src/core/net/dns_types.hpp:296-345 | writing a count's two bytes is setting that count in the decoded header |
| DnsTypes.SameIdAndFlags | src/core/net/dns_types.hpp:91-262 | the ID and every flag field are read from the first four header bytes only |
| DnsTypes.ClearedHeaderFields | src/core/net/dns_types.hpp:84 | a cleared header reads as a query with every field zero |
| DnsTypes.Header.constructor | src/core/net/dns_types.hpp:84 | a new header is all zero |
| DnsTypes.Header.Update | src/core/net/dns_types.hpp:383 | a new update header is a cleared header with the Update query type |
| DnsTypes.Header.SetMessageId | src/core/net/dns_types.hpp:98 | the new header is the old one with the message ID replaced |
| DnsTypes.Header.SetType | src/core/net/dns_types.hpp:129 | the new header is the old one with the message type replaced |
| DnsTypes.Header.SetQueryType | src/core/net/dns_types.hpp:156 | the new header is the old one with the OpCode replaced |
| DnsTypes.Header.SetFlag | src/core/net/dns_types.hpp:174-226 | the new header is the old one with that flag set |
| DnsTypes.Header.ClearFlag | src/core/net/dns_types.hpp:169-221 | the new header is the old one with that flag cleared |
| DnsTypes.Header.SetResponseCode | src/core/net/dns_types.hpp:262-265 | the new header is the old one with the response code replaced |
| DnsTypes.Header.SetCount | src/core/net/dns_types.hpp:303-345 | the new header is the old one with that section count replaced |
| DnsTypes.Header.SetUpdateCount | src/core/net/dns_types.hpp:390-425 | the update-message counts are the question, answer and authority counts under other names |
| DnsTypes.Aliased | src/core/net/dns_types.hpp:390-425 | no update-message count uses the additional-records count |
| DnsTypes.UpdateCountsIndependent | src/core/net/dns_types.hpp:390-425 | setting one update-message count keeps the other two |
| DnsTypes.UpdateHeaderFields | src/core/net/dns_types.hpp:383 | a new update header carries the Update query type and every other field clear |
| DnsTypes.ResponseCodeToError | src/core/net/dns_types.hpp:267-289 | only success maps to no error; a code outside the listed ones maps to the generic failure |
| DnsTypes.ExtendedCodesInHeader | src/core/net/dns_types.hpp:231-265 | the extended codes BADNAME, BADTRUNC and BADALG set through the four-bit header field read back as NOTIMP, YXDOMAIN and REFUSED |
| DnsTypes.ExtendedCodesErrors | src/core/net/dns_types.hpp:267-289 | BADNAME and BADTRUNC map to a different error than the codes the header reads them back as; BADALG maps to the same one |
| DnsTypes.With16 | src/core/net/dns_types.hpp:1452-1501 | a big-endian 16-bit record field reads back and no other byte changes |
| DnsTypes.WithRecordType | src/core/net/dns_types.hpp:1428-1452 | setting the record type changes no other field |
| DnsTypes.WithClass | src/core/net/dns_types.hpp:1466-1473 | SetClass changes the class and no other field |
| DnsTypes.WithLength | src/core/net/dns_types.hpp:1494-1509 | SetLength changes the length and no other field, and the record size then covers the header and that many bytes |
| DnsTypes.WithTtl | src/core/net/dns_types.hpp:1480-1487 | SetTtl changes the TTL and no other field |
| DnsTypes.WithTtlByte | src/core/net/dns_types.hpp:2606-2660 | writing one byte of the TTL leaves every other byte of the record |
| DnsTypes.UpdateDnsSecBit | src/core/net/dns_types.hpp:2627-2637 | setting or clearing DO changes only bit 7 of the flag byte |
| DnsTypes.WithDnsSecurityFlag | src/core/net/dns_types.hpp:2627-2637 | setting or clearing DO makes it read back as set or clear and changes no other byte |
| DnsTypes.OptTtlLayout | src/core/net/dns_types.hpp:2597-2660 | the extended RCODE is the top byte of the TTL, the version the next byte, and DO is bit 15 |
| DnsTypes.OptRecord.constructor | src/core/net/dns_types.hpp:2555 | an OPT record view over the given record bytes |
| DnsTypes.OptRecord.Init | src/core/net/dns_types.hpp:2566-2570 | the record becomes an OPT record with a zero TTL: no extended code, version 0, DO clear |
| DnsTypes.OptRecord.SetUdpPayloadSize | src/core/net/dns_types.hpp:2580-2588 | the UDP payload size is stored in the class field |
| DnsTypes.OptRecord.SetExtendedResponseCode | src/core/net/dns_types.hpp:2606 | the extended response code is stored in TTL byte 0 |
| DnsTypes.OptRecord.SetVersion | src/core/net/dns_types.hpp:2620 | the version is stored in TTL byte 1 |
| DnsTypes.OptRecord.SetDnsSecurityFlag | src/core/net/dns_types.hpp:2637 | DO is set and nothing else changes |
| DnsTypes.OptRecord.ClearDnsSecurityFlag | src/core/net/dns_types.hpp:2632 | DO is cleared and nothing else changes |
| DnsTypes.UseFlagsOf | src/core/net/dns_types.hpp:2267 | the use flags read are the top two bits of the first flag byte |
| DnsTypes.OwnerFlagsOf | src/core/net/dns_types.hpp:2274 | the owner flags read are the low two bits of the first flag byte |
| DnsTypes.KeyFlags | src/core/net/dns_types.hpp:2290-2294 | the use and owner flags set read back, every other bit of the first byte is clear, and only the low four signatory bits are kept |
| DnsTypes.KeyRecord.constructor | src/core/net/dns_types.hpp:2185 | a KEY record with the given flag bytes, protocol and algorithm |
| DnsTypes.KeyRecord.SetFlags | src/core/net/dns_types.hpp:2290-2294 | both flag bytes are replaced by the packed flags; protocol and algorithm are unchanged |
| DnsTypes.LeaseOption.constructor | src/core/net/dns_types.hpp:2722 | an Update Lease option with the given fields |
| DnsTypes.LeaseOption.InitAsShortVariant | src/core/net/dns_types.hpp:2724-2731 | the option becomes a short Update Lease option whose key lease reads as the lease interval |
| DnsTypes.LeaseOption.InitAsLongVariant | src/core/net/dns_types.hpp:2733-2740 | the option becomes a long Update Lease option carrying both intervals, each read back |
| DnsTypes.KeyLeaseIntervalFor | src/core/net/dns_types.hpp:2774-2777 | the short variant reports the lease interval as its key lease, the long variant its own key lease |
| DnsTypes.TypeBitMapBytes | src/core/net/dns_types.hpp:2822-2856 | a type bitmap window is its block number, its length and the bitmap, and its size is what GetSize reports |
| BbrManager.MlrTimeout | src/core/backbone_router/bbr_manager.cpp:186-207 | without a processed Timeout TLV the configured timeout; a timeout of UINT32_MAX is refused as persistent; 0 stays 0; any other is capped at the maximum MLR timeout |
| BbrManager.Addresses | src/core/backbone_router/bbr_manager.cpp:211-214 | the IPv6 Addresses TLV read sixteen bytes at a time covers the whole payload up to a short tail |
| BbrManager.ValidateMlr | src/core/backbone_router/bbr_manager.cpp:152-207 | the checks made before any address is touched, in the source's order: not a confirmable POST is a parse error; not primary, a session ID mismatch or a badly sized TLV are answered with their status; an accepted request yields its addresses, at most fifteen, and its timeout |
| BbrManager.Answers | src/core/backbone_router/bbr_manager.cpp:216-246 | one table answer per address |
| BbrManager.AnswerAt | src/core/backbone_router/bbr_manager.cpp:216-246 | with a timeout of 0 every address is removed and counts as a success; otherwise the table's answer to adding it decides |
| BbrManager.PlaceKeepsSorted | src/core/backbone_router/bbr_manager.cpp:248-256 | placing the next address keeps failed addresses packed at the front in order and successful ones at the end, latest first |
| BbrManager.NextAddress | src/core/backbone_router/bbr_manager.cpp:211-214 | reading the next sixteen bytes yields the next address of the TLV and leaves the rest |
| BbrManager.Place | src/core/backbone_router/bbr_manager.cpp:216-256 | a failed address goes right after the failed ones at the front, a successful one right before the successful ones at the end, and the array stays sorted |
| BbrManager.RegisterAddresses | src/core/backbone_router/bbr_manager.cpp:211-258 | the loop leaves the failed addresses in order, the successful ones latest first, and the status of the first failure |
| BbrManager.MlrOutcomeOf | src/core/backbone_router/bbr_manager.cpp:134-271 | a request that is not a confirmable POST gets no response; every other request gets one; only an accepted request with a success announces addresses on the backbone, with its timeout |
| BbrManager.HandleMulticastListenerRegistration | src/core/backbone_router/bbr_manager.cpp:134-271 | the handler produces the outcome MlrOutcomeOf describes |
| BbrManager.PartitionIsPermutation | src/core/backbone_router/bbr_manager.cpp:211-258 | every handled address ends up on exactly one side of the array |
| BbrManager.SucceededStepKeepsPermutation | src/core/backbone_router/bbr_manager.cpp:252-256 | placing a successful address keeps the two sides a permutation of the addresses handled |
| BbrManager.FailedStepKeepsPermutation | src/core/backbone_router/bbr_manager.cpp:248-251 | placing a failed address keeps the two sides a permutation of the addresses handled |
| BbrManager.PartitionSizes | src/core/backbone_router/bbr_manager.cpp:144-145 | the failed and successful counts add up to the addresses handled |
| BbrManager.ZeroTimeoutAllSucceed | src/core/backbone_router/bbr_manager.cpp:216-222 | with a timeout of 0 no address fails, and all are listed latest first |
| BbrManager.StatusSuccessIffNoFailure | src/core/backbone_router/bbr_manager.cpp:227-251 | the status stays Success exactly when no address failed |
| BbrManager.StatusSticky | src/core/backbone_router/bbr_manager.cpp:233-242 | once a failure has set the status, later answers do not change it |
| BbrManager.StatusSuccessWhileAllSucceed | src/core/backbone_router/bbr_manager.cpp:227-231 | while every address succeeds the status stays Success |
| BbrManager.StatusIsFirstFailure | src/core/backbone_router/bbr_manager.cpp:232-242 | the status reports the first failed address: Invalid for invalid arguments, NoResources for no buffers |
| BbrManager.MlrAccountsForEveryAddress | src/core/backbone_router/bbr_manager.cpp:260-270 | an accepted request answers with its failed addresses and announces the others: together they are the request's addresses, at most fifteen |
| BbrManager.DuaStatusForRegister | src/core/backbone_router/bbr_manager.cpp:397-413 | the DUA.rsp status is Success, Duplicate or NoResources exactly for those answers of the ND proxy table, GeneralFailure otherwise |
| BbrManager.HandleDuaRegistration | src/core/backbone_router/bbr_manager.cpp:356-431 | a sender that is not an RLOC is dropped; a response is sent exactly when there is no error; the table is asked to register exactly when every check passes, and then the response carries its answer |
| BbrManager.ProactiveNotificationAction | src/core/backbone_router/bbr_manager.cpp:716-751 | no proxy: nothing; same ML-IID and not newer: the proxy is erased; same ML-IID and newer: a notification with the local values is sent; another ML-IID: the proxy is erased and an address error sent |

## Left out

- Headers outside the modelled files supply some constants. The model fixes them as named constants:
  - `CoapResponses.MaxCachedResponses` (10)
  - `CoapTxParameters.DefaultMaxLatency` (100000 ms)
  - `CoapTxParameters.MinAckTimeout` (1000 ms)
  - `CoapTxParameters.MaxRetransmitLimit` (20)
  - `CoapBlockwise.MaxBlockLength` (1024)
  - `CoapRequests.MaxReceivedUriPath` (32)
  - `NetworkDataContextIds.MinId`/`MaxId` (1 and 15) and `ReuseDelay` (300 s)
  - service IDs 0 to 15
  - the Network Data TLV types and sizes
  - `BbrManager.MaxAddresses` (15)
  - `MeshDiag.MaxRouterId` (62)
  - `Ip6.MaxAssembledDatagramLength` (1280)
- The rest are parameters of the model: the TREL pool size, the mesh diagnostic response timeouts, the maximum MLR timeout and the supervision interval.
- Network Data TLV layouts (network_data_tlvs.hpp), the Thread TLV definitions (thread_tlvs.hpp), IPv6 address classification (address.cpp), `Mle::RouterIdMatch` and the timer scheduler (timer.hpp) are not part of this model.
  - Their behaviour is assumed where needed. `RlocMatch` is a predicate.
  - The leader timer fires at the serially earliest pending time and stops when none is pending.
- Clocks are natural numbers, or 32-bit serial values where the source compares them serially. `TimeMilli` wrap-around is not modelled for CoAP deadlines.
- Collaborators are parameters of the operations that consult them: radio and socket I/O, random draws, message-pool allocation, the MLE role, TLV lookup in received messages, the multicast listener and ND proxy tables, and user callbacks. Callbacks are recorded as events rather than invoked, so reentrancy from a callback into the engine is not modelled.
- CoAP leaves out the following.
  - The request for the next block after a 2.31 Continue is not enqueued (only its failure path is modelled).
  - The transmit hook for the first block inside `SendMessage` is not modelled.
  - The retransmission of a response built by `SendHeaderResponse` is not modelled.
  - Failures to read the Observe value (more than 8 bytes) or a block option are not modelled.
  - Parse failures in `Receive` are not modelled.
- An unmatched non-confirmable message gets no Reset. `SendEmptyMessage` builds one only for a confirmable message; this follows the code (coap.cpp:1288-1296).
- `CoapRequests` compares URI path segments as byte sequences, so a NUL byte inside a segment is not treated as a terminator.
- A request is left unanswered, with no error and no handler call, when the matching block-wise resource has a hook but no hook for the request's block option type. This covers a request with both Block1 and Block2 options (block type 3), a Block1 request to a resource with only a transmit hook, and a Block2 request to a resource with only a receive hook (coap.cpp:1379-1419). A matching resource with no hooks is handed the request (coap.cpp:1421-1426). `CoapRequests.BlockWiseDispatch` follows the code here.
- Transmissions made through `SendMessage` are modelled as the messages sent, not as events in the engine's log.
- Mesh diagnostics leave out three things:
  - the loops over answers in `ProcessRouterNeighborTableAnswer` and `ProcessChildTableAnswer`, and the IPv6 address iterator;
  - the field-by-field copies into `ChildEntry` and `RouterNeighborEntry`;
  - the child iterator beyond `ChildRloc16`.
- The Network Data leader leaves out the following.
  - The clone (`SIGNAL_NETWORK_DATA_FULL`) branches of `GetUnallocatedId`, `AllocateServiceId`, `ScheduleToRemove` and `IncrementVersions` are not modelled.
  - `mWaitingForNetDataSync`, `Start`, `HandleNetworkDataRestoredAfterReset`, `RegisterNetworkData` and `CheckForNetDataGettingFull` are not modelled.
  - Byte-level shifting inside the leader's buffer is modelled on structured TLV values and local copies.
  - The distant-future edge case of timer scheduling is not modelled.
- The IPv6 model leaves out the reassembly timeout sweep (`HandleTimeTick`, `UpdateReassemblyList`), because it depends on the timer and the message queues. It also leaves out the address details of prefix matching beyond the common-prefix length.
- Nd6: Prefix Information, Route Information and RDNSS options are appended as option values through `AppendOption`. The byte writes inside each option are not modelled.
- The Network Data Publisher leaves out the following.
  - DNS/SRP service entries (`DnsSrpServiceEntry`) and `HandleNotifierEvents` are not modelled.
  - The publisher's 8-bit counters are natural numbers.
  - Random delays are parameters.
- DNS: the header's 4-bit RCODE field keeps only the low bits of an extended response code. Lemmas in `DnsTypes` state this; the code does it deliberately.
- The POSIX drivers outside the TREL queue, the TREL socket and DNS-SD glue, and the DNS-SD dispatch to the platform are left out; they are I/O.
- Ip6.FragmentDatagram: it emits the fragments of the corrected plan (`PlannedCorrected`, last fragment recognised by `payloadLeft <= maxPayloadFragment`), so a full last fragment has M clear. The loop as written at ip6.cpp:567-582 uses `<`; `Planned` models it, and the Findings table records the difference.
- ChildSupervision.Child: the seconds-since-last-supervision counter is a natural number. The child entry's fixed-width field (its definition is not part of this model) would wrap after a long run of ticks without a supervision message, and that wrap is not modelled.
- CoapEngine.CoapBase.ProcessReceivedResponse: the engine reacts to a block-wise piggybacked response with the corrected actions (`BlockResponseActionsCorrected`), so it finalizes the request once. The code as written at coap.cpp:1202-1247 finalizes twice; `BlockResponseActions` models that and the Findings table records it.
- NetworkData.RoutePreferenceFromValue: its definition (`NetworkData::RoutePreferenceFromValue`) is not part of this model. The two-bit table, including the reserved value 10 reading as medium, follows section 2.1 of RFC 4191 and is not checked against that definition. The Nd6 finding on the reserved preference rests on this table.
- DnssdRequestIds.AddContains: requires that the range after the add spans fewer than 2^31 IDs. Beyond that, serial-number order cannot place the new ID inside the range.
- MessageBuffer.Message.Clone: requires the cloned length to be at most the message length. message.hpp does not state this bound for `Clone(aLength)`.

## Findings

| source | as written | input that shows it | evidently intended | confidence | as-written member | corrected member |
|---|---|---|---|---|---|---|
| src/core/coap/coap.cpp:1637-1639 | `IsValid` bounds the ACK timeout and retransmit count but not the derived exchange lifetime, which wraps in 32 bits | TxParameters(4294867295, 1, 1, 0) passes the check while its exchange lifetime wraps to 99999 ms | parameters whose derived timings overflow are rejected | not executed | CoapTxParameters.IsValidAcceptsWrappingLifetime | CoapTxParameters.IsValidCorrected |
| src/core/coap/coap.cpp:1202-1247 | the block-wise branch of response processing finalizes the request and then falls through to a second finalize | a 2.31 Continue whose next-block send fails with NoBufs, or the last block of a block-type-3 exchange | a response finalizes its request exactly once | not executed | CoapReactions.BlockResponseFinalizesTwice | CoapReactions.BlockResponseFinalizesOnce |
| src/core/net/ip6.cpp:567-582 | the last fragment is recognised by `payloadLeft < maxPayloadFragment`, so M stays set when the payload is an exact multiple | a 2464-byte payload with a 1232-byte maximum gives two fragments, both with M set | the last fragment clears M (section 4.5 of RFC 8200) | not executed | Ip6.TwoFullFragmentsBothMore | Ip6.CorrectedLastClearsMore |
| src/core/net/ip6.cpp:1236-1242 | the hop limit of a Thread-origin datagram is decremented as a uint8 and checked for zero only after the decrement | a datagram with hop limit 0 is forwarded with hop limit 255 | a datagram whose hop limit is 0 is not forwarded (section 3 of RFC 8200) | not executed | Ip6.ZeroHopLimitForwarded | Ip6.ForwardCorrectedDecrements |
| src/core/net/nd6.cpp:136-141 | the Route Information check reads the preference through a conversion that maps the reserved value 10 to medium, so the check never fails | a valid-length Route Information option whose flags byte is 0x10 (preference bits 10) | the reserved preference is rejected (section 2.3 of RFC 4191) | not executed | Nd6.ReservedPreferenceAccepted | Nd6.RouteInfoCorrectedRejectsReserved |
