# Verified model of masque-server

This project models the stateful core of a MASQUE proxy (HTTP capsules, CONNECT-UDP and
CONNECT-IP) in Dafny and proves what the server relies on. Each module follows one source file:

| module | source |
|---|---|
| `Varint`, `BigEndian` | QUIC variable-length integers |
| `Capsules`, `CapsuleEncoder`, `CapsuleParser` | capsule frames and the parsers of their values |
| `StreamScan` | the theory of incremental decoding, shared by both capsule decoders |
| `CapsuleFraming`, `CapsuleDecoder` | the buffering capsule decoder with compaction |
| `DatagramCapsules`, `IpCapsules` | the non-buffering readers |
| `AddressRequests` | replies to ADDRESS_REQUEST over the life of a stream |
| `Scheduler` | the indexed min-heap of connection deadlines |
| `AddressPool`, `Bits`, `IpAddresses` | the address pool with claims and reservations |
| `SingleFlight`, `CacheOrder` | single-flight password verification and its success cache |
| `Admission`, `MapSums` | per-source connection limits |
| `OutputQueue`, `CapsuleQueues` | bounded capsule output of a connection |
| `Segments`, `SendBatch`, `PlanSend` | segmentation-offload batching |
| `IpPacket` | IP header parsing and the source-route check |

Code that the source runs in place is a class or a loop here. Its methods are proved against
functions on values, and the laws are lemmas about those functions: invariants of every run,
round trips, equivalence of two decoders, conservation. Concurrent code (`SingleFlight`,
`Admission`) is a state machine whose steps are the critical sections; the theorems range over
all interleavings. `dafny verify dfyconfig.toml` checks everything.

Conventions. Time is an integer clock. Hash maps are Dafny maps and iteration order is left
open. A machine word is an unbounded integer whose limits are proved where they matter
(address arithmetic, queue totals, saturating lengths); sizes assume a 64-bit `usize`. The
transport's `send_body` is an arbitrary reply per call: bytes taken, blocked, or failed. HMAC
tags are injective, and Argon2 is a fixed predicate on passwords; a leader verifies the password
it was elected for, as its only caller does (`src/server/authentication.rs:44-85`). Opening a
capsule stream requires that the stream is not open, since a request opens its stream once.

What the code does, where its comments could suggest otherwise:

- The gateway is the network address with its lowest bit set by a bitwise or, which differs from
  "network + 1" exactly for a network with an odd address, hence only for a single-host prefix
  (`AddressPool.GatewayIsNext`).
- `CapsuleDecoder::decode`, `DatagramCapsules::decode` and `IpCapsules::decode` return only the
  error of a failing call, without the frames completed earlier in that call. What the callback
  of `decode_with` sees up to the first error does not depend on the chunking, but what these
  calls return does: `CapsuleDecoder.ChunkingShows` and `IpCapsules.IpChunkingShows` give octets
  that show it, `DatagramCapsules.PayloadsKeptExactly` says for which limits it happens, and
  `StreamScan.NothingLostExactly` with its three instances says exactly when nothing is lost.
- After `DatagramCapsules` refuses an oversized capsule, its header buffer stays within bounds
  whatever it is fed next (`DatagramCapsules.Reader.DecodeWith`), but its state no longer stands
  for a position in the stream. The server closes the stream then.
- A reservation may be the network or the broadcast address; only dynamic allocation avoids them.
- The IPv4 cursor of the pool wraps lazily and the IPv6 cursor at once, so a stored IPv4 cursor may
  stand one past the last host.
- `try_acquire` with a limit of 0, which the constructor's debug assertion rules out, leaves a
  counter of 0 behind; the counters are always exact if and only if the limit is positive
  (`Admission.LimitDecides`).
- A batch of outgoing packets cannot be cut back if it holds an empty packet: behind a full segment
  it disappears, and alone it gives a segment size of 0 (`SendBatch.CutRestoresExactly`).
- An empty buffer on a capsule queue never leaves it, because every write of it takes 0 bytes. A
  willing transport empties a queue if and only if it holds none (`OutputQueue.DrainsExactly`).
  Conservation and accounting hold either way; no caller queues one.
- A successful verification reads the clock before it takes the lock, so two successes may be cached
  in the opposite order to their clock reads, and the cache then expires earlier. That takes a
  credential that accepts two passwords and two leaders at a time, or more leaders at a time than
  the registry's 256 entries, and cannot happen otherwise (`CacheOrder.OrderExactly`). Barring
  hash collisions a credential accepts one password, and the server admits 256 pending
  verifications (`src/server/mod.rs:140`).

## Model

| member | source | states |
|---|---|---|
| `Varint.Decode` | src/varint.rs:38-74 | a decode succeeds exactly when the whole announced width is present, uses 1 to 8 octets, and never yields more than 2^62-1; the only failure is a short buffer |
| `Varint.OneOctet` | src/varint.rs:38-74 | an octet below 64 is its own value |
| `Varint.TwoOctets` | src/varint.rs:38-74 | the value of two octets, by the weight of each (Table 4 of RFC 9000) |
| `Varint.FourOctets` | src/varint.rs:38-74 | the value of four octets, by the weight of each |
| `Varint.EightOctets` | src/varint.rs:38-74 | the value of eight octets, by the weight of each |
| `Varint.RoundTrip` | src/varint.rs:95-142 | decoding inverts encoding for every value up to 2^62-1 and any trailing data |
| `Varint.Shortest` | src/varint.rs:77-89 | no encoding of a value is shorter than the computed length, and the one of that length is unique (section 16 of RFC 9000) |
| `Varint.DecodeStable` | src/varint.rs:38-74 | bytes that arrive later never change a completed decode |
| `Varint.Encode` | src/varint.rs:95-132 | writes exactly the encoding at the front of the buffer and leaves the rest; overflow and short buffers are errors that write nothing |
| `Varint.EncodeToVec` | src/varint.rs:135-142 | appends exactly the encoding, or reports overflow and appends nothing |
| `CapsuleEncoder.EncodeAssignedAddresses` | src/capsule/encoder.rs:57-74 | the loop writes the address entries in order, each as request ID, version, octets, prefix length |
| `CapsuleEncoder.EncodeAddressRanges` | src/capsule/encoder.rs:77-96 | the loop writes the ranges in order, each as version, start, end, protocol |
| `CapsuleEncoder.Encode` | src/capsule/encoder.rs:7-31 | appends the frame's type, length and value to the buffer |
| `CapsuleEncoder.EncodeDatagramContextZero` | src/capsule/encoder.rs:42-47 | writes the same bytes as encoding a DATAGRAM with context 0 in front of the payload, at most 10 more than the payload |
| `CapsuleParser.ParseAssignedAddresses` | src/capsule/decoder.rs:183-245 | the slice-advancing loop computes the recursive reading of an address list, entry by entry |
| `CapsuleParser.ParseRequestedAddresses` | src/capsule/decoder.rs:169-181 | an address request is an address list that is not empty and has no request ID 0 |
| `CapsuleParser.AddressesInverse` | src/capsule/decoder.rs:183-245 | parsing inverts the encoding of every list of valid addresses |
| `CapsuleParser.AddressesValid` | src/capsule/decoder.rs:183-245 | every parsed entry is valid: prefix within the family's width and host bits clear |
| `CapsuleParser.PrefixTest` | src/capsule/decoder.rs:224-233 | masking with the ones below the prefix tells exactly whether the prefix fits the family and no host bit is set |
| `CapsuleParser.AddressesAccepted` | src/capsule/decoder.rs:183-245 | a value is read as a list of addresses if and only if it is a row of entries spelling them: a request ID in any of its spellings, the version, the address octets, a valid prefix length |
| `CapsuleParser.RequestsAccepted` | src/capsule/decoder.rs:169-181 | a request is accepted if and only if it is such a row, not empty, without a zero request ID |
| `CapsuleParser.ParseAddressRanges` | src/capsule/decoder.rs:249-322 | the loop that remembers only the previous range computes the recursive reading of a range list |
| `CapsuleParser.NeighboursSuffice` | src/capsule/decoder.rs:290-320 | comparing neighbours is equivalent to: every range has start at most end, all pairs are sorted by version and protocol, and any two with equal keys are disjoint and ascending |
| `CapsuleParser.RangesAccepted` | src/capsule/decoder.rs:249-322 | a value is accepted exactly when it is fully framed and the whole list is sorted and disjoint (section 4.7.3 of RFC 9484); otherwise it is malformed |
| `CapsuleParser.FramedInverse` | src/capsule/decoder.rs:249-288 | framing inverts the encoding of every range list |
| `CapsuleParser.FramedImage` | src/capsule/decoder.rs:249-288 | a framed value is the encoding of the ranges read from it, so framing is unambiguous |
| `CapsuleParser.RoutesAccepted` | src/capsule/decoder.rs:249-322 | a value is read as a list of ranges if and only if it is a row of entries spelling them, octet by octet, in the required order |
| `CapsuleParser.ValueInverse` | src/capsule/decoder.rs:139-166 | the parser returns every well-formed frame unchanged from the encoder's value for it |
| `CapsuleParser.ParsedWellFormed` | src/capsule/decoder.rs:139-166 | every frame the parser yields is well formed and keeps its capsule type |
| `CapsuleParser.ValueAccepted` | src/capsule/decoder.rs:139-166 | for every type and value: the parser yields a frame if and only if the value spells that frame |
| `StreamScan.ChunkingInvisible` | src/capsule/datagram.rs:56-111 | for any incremental step, what is handed to a callback up to the first error, the error, and the bytes left over do not depend on how the stream is cut into chunks |
| `StreamScan.FedSplits` | src/capsule/decoder.rs:78-88 | everything decoded is what the calls before the failing one return, followed by what the failing call loses |
| `StreamScan.ReturnedIsAll` | src/capsule/decoder.rs:78-88 | what the calls return is everything decoded from the stream if and only if the failing call had no output to lose |
| `StreamScan.FailsExactly` | src/capsule/decoder.rs:78-88 | the failing call is the first one after which the bytes received so far hold an error |
| `StreamScan.ReturnedIsAhead` | src/capsule/decoder.rs:78-88 | the calls return what the bytes ahead of the failing call hold |
| `StreamScan.NothingLostExactly` | src/capsule/decoder.rs:78-88 | nothing is lost if and only if the last piece of output is complete before the chunk that reveals the error arrives |
| `CapsuleFraming.TryDecodeStable` | src/capsule/decoder.rs:106-136 | a capsule that was decoded or refused is decided the same way however many bytes follow |
| `CapsuleFraming.WrittenDecides` | src/capsule/decoder.rs:106-136 | behind a header written with any type and length: a length over the limit is refused at once with that length, a value still to come is waited for, and a whole one goes to the parser of its type |
| `CapsuleFraming.PendingBound` | src/capsule/decoder.rs:106-136 | an incomplete capsule within the limit has fewer than limit + 16 bytes |
| `CapsuleDecoder.Drain` | src/capsule/decoder.rs:78-90 | the loop yields the frames decodable from the buffer, in order, or the first error; without an error fewer than limit + 16 bytes stay undecoded |
| `CapsuleDecoder.Decoder.Decode` | src/capsule/decoder.rs:66-91 | one call decodes the undecoded bytes followed by the chunk: its frames or its error, the rest as undecoded bytes, fewer than limit + 16 after a success, and storage below the compaction threshold plus that plus the chunk |
| `CapsuleDecoder.Decoder.Consume` | src/capsule/decoder.rs:78-90 | decodes what is buffered: the frames or the error, and the undecoded rest |
| `CapsuleDecoder.Decoder.FeedAll` | src/capsule/decoder.rs:66-91 | over any calls, what they return is the output before the failing call, the error is that of the whole stream, the undecoded bytes are the undecoded rest of everything fed, and the storage stays below the compaction threshold, a largest capsule and the longest chunk together |
| `CapsuleDecoder.ReturnsAllExactly` | src/capsule/decoder.rs:66-91 | the calls return every frame of the stream if and only if the capsule with the error starts no later than the chunk that reveals it |
| `CapsuleDecoder.ChunkingShows` | src/capsule/decoder.rs:66-91 | octets 00 00 02 00 in one call return the error alone, in two calls of two octets the empty DATAGRAM first |
| `CapsuleDecoder.Decoder.Absorb` | src/capsule/decoder.rs:67-77 | compaction never changes the undecoded bytes and bounds the storage |
| `CapsuleDecoder.Decoder.Buffered` | src/capsule/decoder.rs:94-97 | reports the number of undecoded bytes |
| `CapsuleDecoder.FramesInverse` | src/capsule/encoder.rs:7-31 | well-formed frames encoded back to back decode to exactly that list with every byte used |
| `CapsuleDecoder.StreamRoundTrip` | src/capsule/decoder.rs:66-136 | the same in any chunking, with nothing left over (section 3.2 of RFC 9297) |
| `CapsuleDecoder.DecodedWellFormed` | src/capsule/decoder.rs:106-166 | whatever is decoded is well formed and of the announced type |
| `DatagramCapsules.SkimChunking` | src/capsule/datagram.rs:56-111 | the callback sees the same (kind, value) sequence up to the first error, and the same error, for every split of the stream into chunks |
| `DatagramCapsules.LimitsDecide` | src/capsule/datagram.rs:69-90 | type 0 has the datagram limit and types 1 to 3 the control limit, if there is one: a capsule is refused for its length exactly if it is over that limit, handed over when complete exactly if there is one, and skipped otherwise |
| `DatagramCapsules.WholeCapsulesEndCleanly` | src/capsule/datagram.rs:41-44 | a row of whole capsules without an error leaves nothing pending |
| `DatagramCapsules.CleanEndIsWhole` | src/capsule/datagram.rs:41-44 | if nothing is pending and there was no error, the stream is a row of whole capsules |
| `DatagramCapsules.Reader.constructor` | src/capsule/datagram.rs:22-40 | a new reader is between capsules, with its own 16-byte header buffer |
| `DatagramCapsules.Reader.IsPartial` | src/capsule/datagram.rs:42-44 | partial exactly when the capsule in progress has octets; `FeedAll` says what that means for everything fed |
| `DatagramCapsules.Reader.HeaderByte` | src/capsule/datagram.rs:62-90 | one header octet, stored inside the 16-byte buffer, moves the reader exactly as the one-capsule specification says; the buffer always has room for the next one, also in a reader fed on after a refusal |
| `DatagramCapsules.Reader.ValueBytes` | src/capsule/datagram.rs:92-109 | value octets are kept or skipped and the callback is made exactly when the value completes; the header buffer keeps its room, also in a reader fed on after a refusal |
| `DatagramCapsules.Reader.DecodeWith` | src/capsule/datagram.rs:56-111 | one call hands the callback, whose verdict may depend on everything it was handed before, exactly the values of the pending bytes followed by the chunk up to its first refusal, and ends with its error or its pending rest; a reader fed on after a refusal never runs out of its 16-byte buffer |
| `DatagramCapsules.Reader.Decode` | src/capsule/datagram.rs:47-54 | returns the payloads of the completed DATAGRAM capsules, or the first error |
| `DatagramCapsules.Reader.FeedAll` | src/capsule/datagram.rs:56-111 | over any calls, the callback is handed exactly what it would be handed of the whole stream, the error is the same, and the reader is partial exactly if the stream ends inside a capsule |
| `DatagramCapsules.ForgetfulSkim` | src/capsule/datagram.rs:56-111 | for a callback that judges each value alone, this is the stream specification with that verdict built in: the same values, the same error, the same bytes used |
| `DatagramCapsules.Reader.DecodeAll` | src/capsule/datagram.rs:47-54 | over any calls, the payloads returned are those of the calls before the failing one |
| `DatagramCapsules.PayloadsReturnedExactly` | src/capsule/datagram.rs:47-54 | every payload of the stream is returned if and only if the last one is complete before the chunk that reveals the error arrives |
| `DatagramCapsules.PayloadsKeptExactly` | src/capsule/datagram.rs:47-88 | every payload of every stream is returned, however it is cut, if and only if no length a capsule can announce is over a limit; otherwise an empty DATAGRAM in the same chunk as a header over the limit is lost |
| `IpCapsules.DecodersAgree` | src/capsule/ip.rs:29-44 | on a stream whose lengths fit both limits, the non-buffering reader yields the buffering decoder's frames without Unknown ones, fails at the same capsule with the same error, and has the same bytes left |
| `IpCapsules.DecodersAgreeChunked` | src/capsule/ip.rs:29-44 | the same for what is decoded, up to and in the failing call, when the two are fed in any chunks, with the same unfinished bytes pending, so one is partial exactly when the other has buffered bytes |
| `IpCapsules.DecodersReturnAlike` | src/capsule/ip.rs:33-44 | called with the same chunks, the two decoders fail at the same call and return the same frames apart from Unknown ones |
| `IpCapsules.FramesReturnedExactly` | src/capsule/ip.rs:33-44 | every frame of the stream is returned if and only if the last one is complete before the chunk that reveals the error arrives |
| `IpCapsules.IpChunkingShows` | src/capsule/ip.rs:33-44 | octets 00 00 02 00 in one call return the error alone, in two calls of two octets the empty DATAGRAM first, for every limit |
| `IpCapsules.IpReader.IsPartial` | src/capsule/ip.rs:29-31 | partial exactly when its inner reader is inside a capsule |
| `IpCapsules.IpReader.Decode` | src/capsule/ip.rs:33-44 | returns the frames of the completed capsules, or the first error |
| `IpCapsules.IpReader.DecodeAll` | src/capsule/ip.rs:33-44 | over any calls, the frames returned are those of the calls before the failing one, and the error is that of the stream |
| `AddressRequests.Answer` | src/capsule/ip.rs:74-88 | an answer has the request's ID and family and a full-length prefix |
| `AddressRequests.AnswerExactly` | src/capsule/ip.rs:74-88 | a full-length request for a leased address gets it, one for the unspecified address gets the first leased address of its family, and every other request gets the unspecified address |
| `AddressRequests.ReplyIsSnapshot` | src/capsule/ip.rs:74-100 | a reply answers the requests in order, by the first leased address that satisfies the request if there is one and the unspecified address otherwise; it lists the whole lease and assigns nothing outside it |
| `AddressRequests.ReplyAddsMissing` | src/capsule/ip.rs:93-98 | the entries behind the answers are for addresses no earlier entry lists, in the order of the lease |
| `AddressRequests.RegisterDecides` | src/capsule/ip.rs:66-72 | a request is answered exactly if none of its IDs is 0, repeated or already used |
| `AddressRequests.RegisterCounts` | src/capsule/ip.rs:66-72 | the record of used IDs grows by exactly the IDs of an answered request, and by no more than that for a refused one |
| `AddressRequests.RegisterRecords` | src/capsule/ip.rs:66-72 | the identifiers recorded are the fresh ones up to the first that is zero or used |
| `AddressRequests.RespondDecides` | src/capsule/ip.rs:56-72 | a request is answered if and only if it is not empty, at most 1024 identifiers are then used, and all its identifiers are fresh; a request refused for its size uses up none |
| `AddressRequests.ReplyFits` | src/capsule/encoder.rs:57-74 | a reply's entries take at most 26 bytes per request and 26 more for the lease |
| `AddressRequests.ReplyCost` | src/capsule/ip.rs:56-101 | a reply's capsule takes at most 54 bytes per request ID |
| `AddressRequests.Lifetime` | src/capsule/ip.rs:47-101 | over any calls on one stream the replies cost at most 54 bytes per newly recorded ID, at most 1024 IDs are recorded, and no ID is answered twice |
| `AddressRequests.LifetimeBelow64K` | src/capsule/ip.rs:47-55 | all replies of a stream stay within 54 * 1024 bytes, below 64 KiB |
| `AddressRequests.Ledger.Serve` | src/capsule/ip.rs:56-101 | the method records IDs and builds the reply exactly as specified, and fails with a malformed error otherwise |
| `Scheduler.OneEntryEach` | src/scheduler.rs:60-68 | the heap has exactly one entry per scheduled connection |
| `Scheduler.RootIsLeast` | src/scheduler.rs:143-147 | in an ordered heap no entry is before the root |
| `Scheduler.RemovalKeepsBijection` | src/scheduler.rs:91-100 | swap-remove keeps the index map a bijection and removes exactly that connection's deadline |
| `Scheduler.AscendingUnique` | src/scheduler.rs:312-353 | strictly increasing order determines a list by its elements, so the order of firing is the sorted order |
| `Scheduler.TimerQueue.constructor` | src/scheduler.rs:64-68 | a new queue is empty and valid |
| `Scheduler.TimerQueue.Schedule` | src/scheduler.rs:78-89 | sets that connection's deadline and nothing else; heap order and index bijection are kept |
| `Scheduler.TimerQueue.Cancel` | src/scheduler.rs:91-100 | removes that connection's deadline and nothing else; exactly one entry goes if it was scheduled |
| `Scheduler.TimerQueue.Swap` | src/scheduler.rs:102-106 | exchanges two heap slots and keeps the index map in step |
| `Scheduler.TimerQueue.SiftUp` | src/scheduler.rs:108-117 | restores heap order when one entry may be too early for its place; deadlines are unchanged |
| `Scheduler.TimerQueue.Repair` | src/scheduler.rs:119-141 | restores heap order when one entry may be too early or too late for its place; deadlines are unchanged |
| `Scheduler.TimerQueue.Sink` | src/scheduler.rs:125-140 | one turn of the downward loop: settled with the heap ordered, or exchanged with the earlier child; deadlines are unchanged |
| `Scheduler.TimerQueue.NextWakeup` | src/scheduler.rs:144-147 | the minimum by (deadline, index) of the scheduled deadlines, or none exactly when nothing is scheduled |
| `Scheduler.TimerQueue.Expire` | src/scheduler.rs:150-160 | fires exactly the entries due at `now`, once each, in strictly increasing (deadline, index) order, each already removed when fired, and leaves the others; what is left is due later |
| `Scheduler.TimerQueue.Run` | src/scheduler.rs:312-353 | any sequence of schedule, cancel and expire behaves as a plain map from connection to deadline |
| `AddressPool.Cidr` | src/address_pool.rs:94-113 | a prefix of any length in either family gives a well-formed network that contains its base address |
| `AddressPool.OffsetInNet` | src/address_pool.rs:240-250 | joining a network and a host offset with a bitwise or is addition, without overflow, for every prefix |
| `AddressPool.GatewayIsNext` | src/address_pool.rs:216-225 | the gateway is the network address plus one if and only if the network address is even, and else it is the network address itself; every network of more than one address has an even one |
| `AddressPool.OffsetsAreClientAddresses` | src/address_pool.rs:208-225 | offsets from 2 up are in range and never the gateway |
| `AddressPool.V4ExhaustedExactly` | src/address_pool.rs:228-262 | Exhausted exactly when every offset from 2 to the one before the broadcast is leased or reserved |
| `AddressPool.V6ExhaustedExactly` | src/address_pool.rs:265-303 | within the scan cap, Exhausted exactly when every offset from 2 to the last is leased or reserved |
| `AddressPool.V4LeasesNearest` | src/address_pool.rs:228-262 | otherwise the lease is the first free offset counting up from the cursor with wrap-around, and the cursor moves just past it |
| `AddressPool.V6LeasesNearest` | src/address_pool.rs:265-303 | the same for IPv6, where the cursor wraps at once |
| `AddressPool.V4ScanComesRound` | src/address_pool.rs:244-262 | a scan that finds nothing leaves the cursor at the same offset, wrapped or not |
| `AddressPool.V6ScanComesRound` | src/address_pool.rs:280-303 | the same, and a scan cut short by its cap goes on behind the last address it looked at |
| `AddressPool.FirstFreeMeaning` | src/address_pool.rs:244-261 | the position a scan finds is free and every one before it is held; finding none means all of them are held |
| `AddressPool.V6SucceedsBelowCap` | src/address_pool.rs:265-303 | an IPv6 allocation succeeds whenever fewer addresses are held than the scan looks at, in particular fewer than 2^64-1 in a larger range |
| `AddressPool.ReservationsAllOrNothing` | src/address_pool.rs:155-173 | a new reservation set replaces the old one exactly when every address is in range, not the gateway and listed once; otherwise nothing changes |
| `AddressPool.RosterBlames` | src/address_pool.rs:155-173 | a refused roster is refused for its first bad entry, with the error for that entry |
| `AddressPool.ReserveDecides` | src/address_pool.rs:133-147 | a reservation is made if and only if the address is in range, not the gateway and not reserved, and then only it is recorded |
| `AddressPool.ClaimDecides` | src/address_pool.rs:182-205 | a claim is granted if and only if the address is reserved for that key and leased to no other identity; it adds one claim, and a refused one changes nothing and says why |
| `AddressPool.ReleaseDecides` | src/address_pool.rs:306-316 | a release succeeds if and only if the address is leased; it takes away one claim, and the lease with the last |
| `AddressPool.ClaimKeeps` | src/address_pool.rs:182-205 | a claim, granted or refused, keeps leases and their holders in step |
| `AddressPool.ReleaseKeeps` | src/address_pool.rs:306-316 | a release takes one holder away and frees the address with the last |
| `AddressPool.StepKeeps` | src/address_pool.rs:133-316 | every operation keeps: at least one claim per lease, exactly one for a dynamic lease, one identity for all holders of an address, and no gateway or out-of-range address leased or reserved |
| `AddressPool.ClaimsMove` | src/address_pool.rs:182-205 | an operation changes an address's claims by exactly the claims it takes and returns |
| `AddressPool.EveryRun` | src/address_pool.rs:133-316 | after any run from a new pool these hold, and an address is free exactly when it was released as often as it was taken |
| `AddressPool.HoldersCameBy` | src/address_pool.rs:133-316 | in every run, each present holder of an address claimed it while it was reserved for that very key, or was leased it while it was neither leased nor reserved |
| `AddressPool.ScanV4` | src/address_pool.rs:236-261 | the scanning loop finds what the declarative first-free search finds and leaves the same cursor |
| `AddressPool.ProbeV4` | src/address_pool.rs:244-261 | the loop looks at each client offset once, in cyclic order, leaves the cursor behind the last one looked at, and never exceeds 32 bits |
| `AddressPool.ScanV6` | src/address_pool.rs:275-302 | the capped scanning loop finds what the declarative first-free search finds and leaves the same cursor |
| `AddressPool.ProbeV6` | src/address_pool.rs:280-300 | the loop looks at each offset once, in cyclic order, up to the cap, and leaves the cursor behind the last one looked at |
| `AddressPool.Allocator.constructor` | src/address_pool.rs:114-124 | a new pool has no leases or reservations and cursors at offset 2 |
| `AddressPool.Allocator.Reserve` | src/address_pool.rs:133-147 | withholds an address or reports why not, changing nothing else |
| `AddressPool.Allocator.Reload` | src/address_pool.rs:155-173 | the loop replaces the reservations by the whole new set or by none of it |
| `AddressPool.Allocator.Attach` | src/address_pool.rs:182-205 | claims as the operation says, whose grants `ClaimDecides` characterises |
| `AddressPool.Allocator.TakeV4` | src/address_pool.rs:228-262 | takes the first free IPv4 address or reports exhaustion |
| `AddressPool.Allocator.TakeV6` | src/address_pool.rs:265-303 | takes the first free IPv6 address or reports exhaustion |
| `AddressPool.Allocator.Free` | src/address_pool.rs:306-316 | drops one claim and the lease with the last one; says whether there was a lease |
| `SingleFlight.RetainedIsAll` | src/auth.rs:308-310 | pruning dead registrations never removes anything: every registered flight is alive |
| `SingleFlight.RequestOutcome` | src/auth.rs:296-330 | a request is answered from the cache, follows or leads, each exactly under its condition; a cache hit is always an accepted password and changes nothing |
| `SingleFlight.FollowEffect` | src/auth.rs:311-317 | following adds one follower of a live flight for the same password and changes nothing else |
| `SingleFlight.LeadEffect` | src/auth.rs:318-329 | leading adds an unfinished flight and its running leader, registered exactly if fewer than 256 are |
| `SingleFlight.DropRemovesOnlyItself` | src/auth.rs:103-117 | dropping a leader removes its own registration and no other leader's |
| `SingleFlight.StepKeeps` | src/auth.rs:75-121 | every step keeps: registered flights have a leader that has not finished dropping and the same password; Pending flights have a live leader; completed results are the true verdict; only successes are cached; at most 256 registrations |
| `SingleFlight.EveryInterleaving` | src/auth.rs:75-121 | these hold after every interleaving of requests, leaders, followers, cancellations and clock ticks |
| `SingleFlight.NoFollowerStranded` | src/auth.rs:75-90 | a follower without a result has a live, unfinished leader whose drop would wake it; once the leader is gone there is a result |
| `SingleFlight.WaitLoop` | src/auth.rs:77-89 | from one look of a waiting follower to any later one, over any interleaving: a result once seen stays, a verdict is the true one for its password, and once its leader is gone there is a result to see |
| `SingleFlight.FollowerVerdict` | src/auth.rs:77-89 | a verdict a follower gets is the true one for its own password |
| `SingleFlight.LeaderServesFollowers` | src/auth.rs:91-99 | a leader that runs to completion gives each of its followers the verdict on the follower's own password |
| `SingleFlight.FollowersServed` | src/auth.rs:75-121 | from a new credential, after every interleaving, each follower has the true verdict, is asked to elect another leader, or has a live leader; at most 256 registrations |
| `SingleFlight.ResultsFinal` | src/auth.rs:91-121 | over any interleaving a published result never changes |
| `SingleFlight.CacheIsLastStored` | src/auth.rs:334-352 | after any interleaving the cache holds the last success stored, dated from the end of its hashing, and nothing else; failures are never cached |
| `SingleFlight.CachedForExactlyTheTtl` | src/auth.rs:285-291 | a password is a cache hit exactly if it was the last success stored and less than 300 seconds have passed since the clock was read at the end of its hashing |
| `SingleFlight.Credential.constructor` | src/auth.rs:32-43 | a new credential has no cached success and no flights |
| `SingleFlight.Credential.Cached` | src/auth.rs:285-291 | true exactly on a cache hit, and then the password is accepted |
| `SingleFlight.Credential.BeginVerification` | src/auth.rs:296-330 | one critical section: cache, prune, follow or lead, as the protocol step says; the invariant is kept |
| `SingleFlight.Credential.VerifyPassword` | src/auth.rs:334-345 | returns the true verdict, and reads the clock for a success before the lock is taken |
| `SingleFlight.Credential.StoreSuccess` | src/auth.rs:345-350 | under the lock, replaces the cached success by this one, which expires 300 seconds after its clock read |
| `SingleFlight.Credential.Complete` | src/auth.rs:92-99 | publishes the leader's verdict to its followers |
| `SingleFlight.Credential.DropLeader` | src/auth.rs:103-121 | leaves the registry without touching other registrations, and abandons the flight if it was not completed |
| `SingleFlight.Credential.Wait` | src/auth.rs:77-89 | a completed flight answers with its verdict, which is the true one, an abandoned one asks to elect another leader, and a pending one keeps the follower waiting with its leader alive; an answer consumes the follower and nothing else changes |
| `CacheOrder.CoveredStep` | src/auth.rs:296-330 | every step keeps each working leader registered for its own password, as long as no request finds 256 registrations |
| `CacheOrder.RegistryBelowLeaders` | src/auth.rs:312-323 | every registration has a live leader of its own, so there are never more registrations than leaders |
| `CacheOrder.SingleExactly` | src/auth.rs:296-330 | single flight: in every run from a new credential with at most so many leaders at a time, two leaders at work on one password are the same leader, if and only if that bound is at most 256 |
| `CacheOrder.Doubled` | src/auth.rs:317-323 | with a larger bound, a run from a new credential that ends with two leaders hashing one password |
| `CacheOrder.SoundStep` | src/auth.rs:334-352 | under the condition of `OrderExactly`, every step keeps that a success about to be stored expires no earlier than the cached one, and never replaces the cached success by one that expires earlier |
| `CacheOrder.EarlierStampWins` | src/auth.rs:340-350 | of two successes dated in one order and stored in the other, the one that expires earlier stays in the cache |
| `CacheOrder.TwoPasswordsMoveBack` | src/auth.rs:340-350 | with two accepted passwords and two leaders at a time, a run from a new credential reaches this |
| `CacheOrder.OrderExactly` | src/auth.rs:334-352 | over all runs from a new credential, the cached expiry never moves back if and only if no password is accepted, or there is one leader at a time, or one password is accepted and there are at most 256 leaders at a time |
| `Admission.CanonicalIp` | src/admission.rs:121-129 | IPv6 results are unchanged and never IPv4-mapped |
| `Admission.CanonicalMergesOnlyMapped` | src/admission.rs:121-129 | two addresses share a counter exactly when they are equal or one is the IPv4-mapped form of the other |
| `Admission.AcquireKeeps` | src/admission.rs:35-52 | counts stay exact and within the limit; a slot is granted if and only if the source has fewer live guards than the limit, and then its guard is recorded; a refusal changes nothing |
| `Admission.RebindKeeps` | src/admission.rs:70-100 | a rebind conserves the total, keeps counts exact and within the limit, and changes nothing when refused |
| `Admission.DropKeeps` | src/admission.rs:103-119 | counts stay exact and within the limit, and exactly the dropped guard is gone |
| `Admission.EveryInterleaving` | src/admission.rs:35-119 | after every interleaving with a positive limit the keys are exactly the sources with live guards, each count is its number of guards and within the limit, and the total is the number of guards |
| `Admission.SlotsAreGrants` | src/admission.rs:35-119 | after any interleaving the table holds one slot for every grant not given back |
| `Admission.ZeroLimitLeaks` | src/admission.rs:35-52 | with a limit of 0 a refused acquire leaves a zero counter behind |
| `Admission.LimitDecides` | src/admission.rs:35-119 | the counters are exact after every interleaving from the start if and only if the limit is positive |
| `Admission.Limiter.constructor` | src/admission.rs:25-32 | a new limiter has no guards |
| `Admission.Limiter.TryAcquire` | src/admission.rs:35-52 | grants or refuses a guard as specified, and inserts the counter |
| `Admission.Limiter.TryRebind` | src/admission.rs:70-100 | moves a guard to another source or leaves everything as it was |
| `Admission.Limiter.DropGuard` | src/admission.rs:104-119 | decrements the guard's counter and removes it at zero |
| `OutputQueue.PushKeeps` | src/server/capsules.rs:124-128 | queueing a buffer appends its bytes to what is accepted and pending, and charges its length |
| `OutputQueue.AdvanceBalanced` | src/server/capsules.rs:196-206 | a partial write moves exactly the bytes taken from pending to sent |
| `OutputQueue.ClearKeeps` | src/server/capsules.rs:207-214 | a failed stream gives up exactly its pending bytes |
| `OutputQueue.DrainBalanced` | src/server/capsules.rs:190-217 | over any partial writes, blocks and errors, bytes that left followed by bytes pending are the bytes accepted, in order |
| `OutputQueue.DrainShrinks` | src/server/capsules.rs:190-217 | flushing only shortens the queue, keeps the finish time, and gives bytes up only if the transport fails |
| `OutputQueue.DrainFollows` | src/server/capsules.rs:190-217 | each answer of the transport moves the queue on by the bytes it says, up to the end of a buffer, until one takes nothing; a failure gives up all that is pending and empties the queue |
| `OutputQueue.SentInOrder` | src/server/capsules.rs:190-217 | where nothing was given up, the transport took exactly the accepted bytes short of the pending ones |
| `OutputQueue.DrainsExactly` | src/server/capsules.rs:190-217 | a transport that takes at least one byte per call, called as often as there are pending bytes, empties the queue if and only if no buffer on it is empty |
| `OutputQueue.SendQueue` | src/server/capsules.rs:190-217 | the write loop does as specified, keeps the stream writable exactly if output remains, and lowers the connection totals by exactly what the stream lost, never below zero |
| `CapsuleQueues.PrecheckDecides` | src/server/capsules.rs:132-149 | the check with 17 bytes of headroom is the whole decision: a datagram that passes it is always queued |
| `CapsuleQueues.QueueDecides` | src/server/capsules.rs:110-130 | a buffer is refused if and only if the stream is unknown or finished, or the buffer would break one of the four limits on bytes and buffers |
| `CapsuleQueues.DatagramDecides` | src/server/capsules.rs:132-149 | the same for a datagram with 17 bytes more than its payload |
| `CapsuleQueues.QueueEffect` | src/server/capsules.rs:124-129 | an accepted buffer goes behind the others of its stream, which is to be written; a refused one changes nothing |
| `CapsuleQueues.DatagramEffect` | src/server/capsules.rs:146-148 | an accepted datagram goes there as a DATAGRAM capsule with context 0 |
| `CapsuleQueues.FinishEffect` | src/server/capsules.rs:151-158 | the first finish is recorded and listed; a later one, or one of an unknown stream, changes nothing |
| `CapsuleQueues.DiscardEffect` | src/server/capsules.rs:160-169 | exactly what is pending on the stream is given up and no longer counted, and the stream is not to be written |
| `CapsuleQueues.RemoveEffect` | src/server/capsules.rs:171-180 | the same, and the stream and its listings are gone |
| `CapsuleQueues.SweepEffect` | src/server/capsules.rs:412-438 | exactly the finished streams with output left and their input complete stay listed |
| `CapsuleQueues.StepKeeps` | src/server/capsules.rs:110-219 | every operation keeps: totals equal the sums over streams, both levels of limits, conservation per stream, pending output implies writable, and a finished list without repeats or unfinished streams |
| `CapsuleQueues.EveryRun` | src/server/capsules.rs:110-219 | these hold after every sequence of opens, pushes, flushes, finishes, discards, removals and sweeps |
| `CapsuleQueues.PartBelowTotal` | src/server/capsules.rs:160-180 | a stream's charge never exceeds the connection's totals, so no subtraction underflows |
| `CapsuleQueues.FinishedIsFinal` | src/server/capsules.rs:114-123 | until it is removed, a finished stream accepts nothing more and keeps its finish time |
| `CapsuleQueues.LosslessRun` | src/server/capsules.rs:110-219 | over a run that never discards, removes or fails a stream, sent bytes followed by pending bytes are exactly the buffers queued during the run, in order |
| `CapsuleQueues.FlushDelivers` | src/server/capsules.rs:182-219 | a stream of whole frames without empty buffers, flushed by such a transport, drains, and its peer decodes the sent bytes, in any chunks, to exactly those frames |
| `CapsuleQueues.FlushDrainsExactly` | src/server/capsules.rs:182-219 | a flush by such a transport empties a stream if and only if no buffer on it is empty |
| `CapsuleQueues.QueuedFramesArrive` | src/server/capsules.rs:110-219 | frames queued one by one on a fresh stream, whatever else happens short of giving the stream up, reach the peer exactly and in order |
| `CapsuleQueues.Connection.constructor` | src/connection.rs:252 | a new connection has empty queues |
| `CapsuleQueues.Connection.OpenStream` | src/server/capsules.rs:89-100 | a new stream has an empty queue |
| `CapsuleQueues.Connection.QueueCapsuleBytes` | src/server/capsules.rs:110-130 | queues the buffer as the operation says; refuses it if and only if the stream is unknown or finished or a limit would break; the invariant is kept |
| `CapsuleQueues.Connection.QueueDatagramCapsule` | src/server/capsules.rs:132-149 | frames and queues the datagram as the operation says; refuses it if and only if the stream is unknown or finished or the worst-case frame would break a limit; the invariant is kept |
| `CapsuleQueues.Connection.MarkFinished` | src/server/capsules.rs:151-158 | records the first finish only, and lists the stream once |
| `CapsuleQueues.Connection.DiscardOutput` | src/server/capsules.rs:160-169 | gives up a stream's output and its charge |
| `CapsuleQueues.Connection.RemoveStream` | src/server/capsules.rs:171-180 | forgets a stream, its charge and its listings |
| `CapsuleQueues.Connection.FlushOutput` | src/server/capsules.rs:182-219 | offers every writable stream's output to the transport, in any order, touches no other stream, and keeps writable exactly those with output left |
| `CapsuleQueues.Connection.SweepFinished` | src/server/capsules.rs:412-438 | takes the finished list, puts back the streams with complete IP input and output left, and hands out the others |
| `SendBatch.DivisibleEndsFull` | src/net/quic.rs:198 | the divisibility test tells that a message ends in a full or empty segment |
| `Segments.MultipleMeansNoRemainder` | src/net/quic.rs:198 | the test for a multiple, defined by repeated subtraction, is the absence of a remainder |
| `SendBatch.PushCarries` | src/net/quic.rs:233-260 | a push adds exactly its packet, with its flow, to what the batch stands for; every message keeps at most 64 segments and, with more than one, at most 65507 bytes on Linux and 65535 elsewhere |
| `SendBatch.PushDecides` | src/net/quic.rs:189-260 | a packet joins the last message if and only if offloading is on, the flow is the same, the message with it is a valid one, and the caller's limit holds it; otherwise it starts a message of its own |
| `SendBatch.CutRestores` | src/net/quic.rs:629-641 | cutting every message at its segment size gives back the packets in order with their destinations, if none is empty |
| `SendBatch.CutRestoresExactly` | src/net/quic.rs:629-641 | cutting restores the packets if and only if none of them is empty |
| `SendBatch.EmptyPacketVanishes` | src/net/quic.rs:189-203 | an empty packet behind a full segment is coalesced and counted, and is missing after the cut |
| `SendBatch.OneFlowOneMessage` | src/net/quic.rs:189-253 | up to 64 equal packets of one flow within the limit share one message |
| `SendBatch.SendPacketBatch.constructor` | src/net/quic.rs:206-213 | a new batch is empty |
| `SendBatch.SendPacketBatch.Clear` | src/net/quic.rs:215-219 | empties the batch and keeps the storage |
| `SendBatch.SendPacketBatch.IsEmpty` | src/net/quic.rs:221-223 | true exactly when nothing was pushed since the last clear |
| `SendBatch.SendPacketBatch.Push` | src/net/quic.rs:233-260 | appends the packet to the batch's log; packet and byte counts stay exact |
| `SendBatch.SendPacketBatch.Active` | src/net/quic.rs:262-264 | the active messages stand for exactly the packets pushed since the last clear, and can be cut back into them exactly if none is empty |
| `SendBatch.SendIndividually` | src/net/quic.rs:629-641 | the nested loops send the cuts of every message in order until a send fails or is short, or a segment size of 0 cannot be cut; without either, exactly the cut is sent |
| `SendBatch.CutIsOffered` | src/net/quic.rs:629-641 | the datagrams the loops offer are the cut, exactly if every segment size is positive |
| `PlanSend.WireRestores` | src/net/target_udp.rs:384-398 | the kernel's cuts of a group give back its payloads |
| `PlanSend.AcceptedPrefix` | src/net/target_udp.rs:402-406 | for any number of accepted groups, the sum of their segments is the index of the first unsent payload, and exactly the payloads before it are on the wire, in order |
| `PlanSend.SharesExactly` | src/net/target_udp.rs:76-95 | payloads may share a message if and only if offloading is on, the first is of 512 to 65535 bytes, all but the last are as long, the last is not longer or empty, and 65507 bytes hold them |
| `PlanSend.PlanTakes` | src/net/target_udp.rs:65-107 | a plan sends exactly the first sixteen payloads, or all of fewer, in order |
| `PlanSend.OnePlan` | src/net/target_udp.rs:65-107 | covering the batch by groups that cannot be extended leaves exactly one plan |
| `PlanSend.GroupLength` | src/net/target_udp.rs:72-96 | the inner loop finds the longest sendable group: full segments, at most one shorter non-empty tail, within the GSO limits |
| `PlanSend.PlanGroups` | src/net/target_udp.rs:65-107 | consecutive groups cover the first 16 payloads once each, every one sendable and as long as possible |
| `PlanSend.AcceptedCount` | src/net/target_udp.rs:402-406 | the returned sum is the index of the first unsent payload |
| `IpPacket.ReadersAgreeWithParse` | src/ip_packet.rs:60-72 | the source and destination readers give the parsed fields or the parser's own error, on every input |
| `IpPacket.ParsesExactly` | src/ip_packet.rs:45-58 | a packet is parsed if and only if its version is known and its header is whole; each error has its exact condition |
| `IpPacket.ParsedFieldsAreOctets` | src/ip_packet.rs:182-241 | protocol and length are the packet's own big-endian fields; the IPv6 length counts the fixed header and saturates |
| `IpPacket.ParsedAddressesAreOctets` | src/ip_packet.rs:182-246 | parsed addresses are the packet's own octets at the family's offsets |
| `IpPacket.OneOptionList` | src/ip_packet.rs:82-107 | a header has at most one reading as an option list |
| `IpPacket.OneChain` | src/ip_packet.rs:109-141 | a packet has at most one reading as a header chain |
| `IpPacket.SafeV4` | src/ip_packet.rs:81-107 | the loop is true exactly if the header fits and its option list is well formed without a source route |
| `IpPacket.SafeV6` | src/ip_packet.rs:108-142 | the loop ends, and is true exactly if the header chain is well formed and reaches an upper layer or a later fragment without a routing header (section 4.5 of RFC 8200) |
| `IpPacket.HasSafeRouting` | src/ip_packet.rs:79-145 | the verdict is the declarative one, and true implies that the packet parses |
| `IpPacket.WrittenV4Safe` | src/ip_packet.rs:81-107 | an IPv4 packet written with a list of options, however padded, is safe if and only if none of them is of type 131 or 137 |
| `IpPacket.WrittenV6Safe` | src/ip_packet.rs:108-142 | an IPv6 packet written with a list of extension headers, up to an upper layer or a later fragment, is safe if and only if none of them is of type 43 |
| `IpPacket.SafeIsParsable` | src/ip_packet.rs:79-145 | a safe packet parses and has readable source and destination addresses |

## Left out

- Error texts, logging and metrics: only the error constructors are modelled.
- Parsing of CIDR strings: a network is given by its base address and prefix length.
- `release_all`, `allocated_count` and `is_allocated` of the pool: loops and reads over modelled operations.
- `DirtySet` in the scheduler, `encode_datagram`, and the receive side of the UDP batches: easier than what is modelled.
- The rest of `src/auth.rs` (header decoding, user lookup, reload): it only selects the credential.
- `src/server/capsules.rs` beyond the output queues: reading bodies, relaying early datagrams and closing streams drive the HTTP/3 library.
- System calls, sockets and control messages around batching; the kernel is taken to cut an aggregate at the segment size.
- `SingleFlight.Credential.Wait`: models one look at the result, and `SingleFlight.WaitLoop` what holds from one look to the next; that the runtime polls a woken follower again is taken for granted.
- `CapsuleQueues.Connection.SweepFinished`: which streams are CONNECT-IP streams not inside a capsule is a parameter, because the input decoders are not part of this object.
- Routing, policy, URI and datagram-header modules: they would add mostly simple members.
- Configuration, enrolment, TLS, HTTP/2 and process management.
