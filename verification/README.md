# shredtop: a verified model of its measuring core

shredtop measures which Solana shred feed delivers first. Everything it reports rests on five stateful
components, and this project models them in Dafny and proves what they are for.

* **Slot decoder** (`crates/shred-ingest/src/decoder.rs`). Shreds of a slot arrive out of order,
  duplicated, or not at all; data shreds that a Reed-Solomon set does not hold are recovered from it, whether
  they were lost or came before the set's first coding shred; a contiguous run is flushed into a buffer from
  which Entries are decoded as they become whole; slots expire 32 behind the highest. The main result is
  `DecoderEndToEnd.EmittedIsParseOfContiguousRun`: after any sequence of packets, the transactions a slot
  anchored at 0 has emitted are the greedy parse of the payloads of the maximal contiguous run of accepted
  indices. `DecoderRecovery.DeliveryDecodesAll` adds that the run covers every index below n once each was sent
  directly or enough rows of its set were, and `DecoderEntries.BlockIsEmitted` says it in the sender's terms: the
  transactions of a block's Entries, encoded, cut into shreds and sent, come out in order.
* **Fan-in** (`crates/shred-ingest/src/fan_in.rs`). Relay threads share a map keyed by signature, and a
  measurement against the RPC moves to a faster shred that comes later. The main result is
  `FanInExact.SumsExactly`: over any interleaving of deliveries and evictions whose entries are orderly,
  all lead sums are exact throughout if and only if every correction found the measurement fresh and counted
  and replaced it by a lead in range. `FanInExact.WinsExactly` is the same for wins.
  `FanInCalls.RunLeads` gives every counter of every source over every run, orderly or not.
* **Shred race** (`crates/shred-ingest/src/shred_race.rs`). A completed race of n feeds is a transitive
  tournament, each entry is recorded at most once, and an address wins exactly the races its arrival led
  (`ShredRaceWins.WinsExactly`).
* **Capture ring and analyzer** (`src/capture.rs`, `src/analyze.rs`). The ring always holds a suffix of
  the packet stream, every packet is read back, and the race over all deliveries that the capture allows is
  the live race (`OfflineLive.VerdictsAreRecorded`). What the analyzer, which skips coding shreds, says of a
  shred is what the live race says exactly when no coding shred decides it (`OfflineAgreement.AgreesExactly`).
* **Metrics and leader cache** (`crates/shred-ingest/src/source_metrics.rs`, `leader_cache.rs`). The fixed
  sample ring is the window of the last 4096 samples and its percentiles are order statistics; the cache
  answers for the scheduled leader exactly.

## How it is built

Each stateful component comes twice. A module of values (`SlotModel`, `FecModel`, `DecoderModel`,
`FanInModel`, `ShredRaceModel`, `CaptureModel`) gives the state, one step, and `Run`, the state after a
whole run; the theorems are about `Run`. A class with the program's own fields (`SlotState`, `FecSet`,
`ShredDecoder`, `FanIn`, `ShredRaceTracker`, `SampleRing`, `SourceMetrics`, `PcapCaptureWriter`,
`LeaderCache`) updates them in loops, and every method is proved to take the value its fields denote,
`Model()`, to what the step makes of it. So what is proved about `Run` is proved about the objects.

Choices that decide what the theorems say:

* Integers wrap where the release build wraps and it can be seen: `next_contiguous` as a u32, the expiry
  test as u64 arithmetic, `lead_wins` (kept exact, the program's value being it modulo 2^64). Other
  counters are unbounded. Timestamps are below 2^63, where the casts to i64 are exact, and `/ 1000` rounds
  toward zero.
* Transaction encoding and the Reed-Solomon library are parameters. Of the first only that a decoded
  transaction is non-empty and decodes the same whatever follows it is used (`SelfDelimiting`); of the
  second only that any n rows of a codeword determine it (`Lawful`). Both laws are shown to be met by a
  small code. The Entry header and the bytes of both kinds of shred are concrete.
* Fields that the program does not store are history: which indices a slot accepted, what was flushed,
  emitted and put into the log, which slots and sets expired. They are ghost in the classes.
* A thread's visit to a map entry is one step, and a run is any sequence of steps. Clocks, sort orders
  among equal timestamps and map iteration orders are arbitrary: they are inputs of a step, or the proofs
  hold for every choice. A map entry worked on through a mutable reference is taken out as an object and
  put back.
* A name is its alphabetical rank, a signature or account key a number: only equality and order count.

## Where the code and its documentation part

* `shreds_seen` is documented as the number of unique data shreds. A shred whose index was flushed and is not
  held is counted again, when it is delivered once more (`DecoderCounts.DeliveredExactly`) and when its set
  recovers it (`DecoderCounts.RecoveredExactly`); a run counts exactly the distinct indices if and only if
  neither happens (`DecoderCounts.RunSeenExactly`). Two packets are enough for a shred that was received to be
  counted as recovered as well (`DecoderExamples.RecoveredThoughReceived`).
* When the contiguous run reaches index u32::MAX - 1, `next_contiguous` equals the value that means "unset",
  and the next shred is appended whatever its index (`DecoderExamples.SentinelReanchors`); when a slot begins
  at u32::MAX itself, it wraps to 0 (`DecoderExamples.SentinelWraps`). `SlotTheorems.SentinelExactly` says when:
  if and only if all indices from the anchor to u32::MAX - 1 are accepted, or the anchor is u32::MAX. A slot for
  which that is not so is called bounded, and the theorems about a slot hold for every bounded one.
* A slot number s with s + 32 >= 2^64 can get two outcomes, and its FEC sets can be created twice; all others
  get at most one, whatever is sent (`DecoderWraps.OneOutcomeExactly`, `DecoderWraps.OneCreationExactly`).
* In mid-stream the Entry boundary depends on how the bytes were cut up: new bytes move it exactly when they
  complete an Entry whose header already lies, whole and plausible, before it
  (`EntryCodec.BoundaryMovesExactly`). So two runs that accept the same shreds in another order can emit
  different transactions (`DecoderExamples.BoundaryDependsOnOrder`).
* `old_lead_us` is not refreshed by a correction, so a second correction withdraws too little
  (`FanInExact.TwoCorrectionsAreStale`); a lead out of range that was never counted as a win can be withdrawn
  as one (`FanInExact.OutOfRangeLeadUnderflowsWins`); and a corrected lead is never held against the cap, so a
  lead beyond it counts or not depending on the order of processing (`FanInExact.CapDependsOnOrder`). The exact
  conditions are those of `FanInExact.SumsExactly` and `FanInExact.WinsExactly`.
* The live race keys coding shreds like data shreds, the analyzer skips them
  (`OfflineAgreement.CodingShredsRaceLiveOnly`). They agree about a shred if and only if neither its first
  delivery nor the first from another feed is a coding shred (`OfflineAgreement.AgreesExactly`).
* The batched receive path hands the sender's address over as it lies in memory, which on a little-endian
  host is not how the leader cache keys it (`LeaderCaches.PathsAgreeExactly`).

## Model

| member | source | states |
|---|---|---|
| EntryCodec.ParseEntryPrefixStable | crates/shred-ingest/src/decoder.rs:290-305 | an Entry that decodes from a prefix of the buffer decodes identically from the longer buffer |
| EntryCodec.GreedyChunkIndependent | crates/shred-ingest/src/decoder.rs:256-310 | parsing a buffer and then, from where that stopped, the buffer with more bytes gives what one parse of everything gives, for every split |
| EntryCodec.StreamedIsGreedy | crates/shred-ingest/src/decoder.rs:256-310 | any number of chunks, parsed as they arrive, emit the greedy parse of their concatenation |
| EntryCodec.GreedyResumes | crates/shred-ingest/src/decoder.rs:290-310 | the same for a parse that starts inside the buffer at the boundary |
| EntryCodec.ScanFrom | crates/shred-ingest/src/decoder.rs:262-288 | the boundary is the least offset at which an Entry with tx_count <= 512 decodes; none when there is none |
| EntryCodec.DecodesMonotone | crates/shred-ingest/src/decoder.rs:262-288 | a position that decodes keeps decoding, to the same Entry, as bytes are appended |
| EntryCodec.DecodesLater | crates/shred-ingest/src/decoder.rs:262-288 | a position that does not decode starts to, as bytes are appended, exactly when its plausible header was already whole and the new bytes complete the transactions it announces |
| EntryCodec.BoundaryMovesExactly | crates/shred-ingest/src/decoder.rs:260-288 | in mid-stream, new bytes move the boundary exactly when they complete an Entry whose whole, plausible header lies before it |
| EntryCodec.LengthPrefixedIsSelfDelimiting | crates/shred-ingest/src/decoder.rs:295-305 | the law assumed of transaction encoding can be met |
| EntryEncoding.EntryRoundTrip | crates/shred-ingest/src/decoder.rs:290-305 | an Entry written as hash count and hash, a little-endian count and its transactions is decoded to these transactions, in order, whatever follows |
| EntryEncoding.StreamRoundTrip | crates/shred-ingest/src/decoder.rs:256-310 | Entries written one after the other are decoded to all their transactions, in order, and the parse goes on behind them |
| EntryEncoding.GreedyIsEncoding | crates/shred-ingest/src/decoder.rs:290-310 | conversely, what the parse consumes is the encoding of Entries with exactly the transactions reported, and it stops where no Entry decodes |
| EntryEncoding.PlausibleExactly | crates/shred-ingest/src/decoder.rs:262-288 | the scan takes a written Entry for one exactly when it has at most 512 transactions |
| EntryEncoding.WholeExist | crates/shred-ingest/src/decoder.rs:295-305 | transactions that decode from exactly their own bytes, as these results assume, exist |
| ShredWire.PaddingTransparent | crates/shred-ingest/src/decoder.rs:138-158 | resizing a data shred to 1228 bytes leaves its parse unchanged exactly when its declared end lies within 1228 bytes |
| ShredWire.DataReadExactly | crates/shred-ingest/src/decoder.rs:138-158 | a data shred is read exactly for variants 0x80 to 0xbf and a declared size within its bytes, to the bytes between header and size and bit 0 of the flags |
| ShredWire.CodeReadExactly | crates/shred-ingest/src/decoder.rs:104-132 | a coding shred is read exactly for variants 0x40 to 0x7f but the legacy one and nonzero dimensions |
| ShredWire.GatedExactly | crates/shred-ingest/src/receiver.rs:455-470 | the gate lets exactly 89 to 1500 bytes of either variant through |
| ShredWire.DataAndCodeDisjoint | crates/shred-ingest/src/decoder.rs:104-158 | no packet is both a data and a coding shred |
| ShredWire.GatedPacketBody | crates/shred-ingest/src/receiver.rs:455-470 | everything the receiver lets through is parsed, and skipped by the decoder exactly for zero set dimensions or a bad data end |
| ShredBytes.DataRoundTrip | crates/shred-ingest/src/decoder.rs:138-158 | a data shred laid out byte by byte is parsed back to its slot, index, set, flags and payload |
| ShredBytes.CodeRoundTrip | crates/shred-ingest/src/decoder.rs:104-132 | so is a coding shred of a set with rows of both kinds, and neither is taken for the other |
| ShredBytes.EncodedAreGated | crates/shred-ingest/src/receiver.rs:455-470 | shreds so laid out that fit a packet pass the receiver's gate |
| SlotModel.FlushKeeps | crates/shred-ingest/src/decoder.rs:247-252 | flushing keeps the flushed indices a contiguous run from the anchor and every other accepted index held |
| SlotModel.DeserializeCatchesUp | crates/shred-ingest/src/decoder.rs:256-309 | one call brings the emitted transactions from the parse of the old buffer to the parse of the grown one, the boundary fixed once |
| SlotModel.DeliverSound | crates/shred-ingest/src/decoder.rs:626-660 | as long as its run stops short of the sentinel, a direct delivery keeps a slot sound: run, held payloads, buffer, boundary and emitted transactions agree |
| SlotModel.RecoverSound | crates/shred-ingest/src/decoder.rs:519-576 | so does a recovery, under the same condition |
| SlotTheorems.BufferIsMaximalRun | crates/shred-ingest/src/decoder.rs:235-252 | the buffer is the payloads of the maximal contiguous run of accepted indices, each once and in order |
| SlotTheorems.EmittedIsGreedyParse | crates/shred-ingest/src/decoder.rs:235-310 | a slot anchored at 0 has emitted and consumed exactly the greedy parse of that run |
| SlotTheorems.PathIndependent | crates/shred-ingest/src/decoder.rs:519-566 | two slots with the same anchor and accepted indices hold the same buffer and, with the same boundary, emitted the same |
| SlotTheorems.CompleteExactly | crates/shred-ingest/src/decoder.rs:551-564 | a slot is marked complete if and only if a last shred was accepted and no index is missing up to the highest; then the run ends there |
| SlotTheorems.SentinelExactly | crates/shred-ingest/src/decoder.rs:235-252 | the next index reaches the sentinel, or wraps, if and only if the anchor is the sentinel or every index from the anchor to it is accepted: exactly the slots excluded elsewhere |
| SlotTheorems.DeliveryReachesExactly | crates/shred-ingest/src/decoder.rs:626-639 | a direct delivery to a sound slot takes it there exactly when it completes that run |
| SlotTheorems.RecoveryReachesExactly | crates/shred-ingest/src/decoder.rs:519-549 | and so does a recovery |
| FecModel.Missing | crates/shred-ingest/src/decoder.rs:344-352 | the missing positions are exactly the data positions not held, in increasing order |
| FecModel.ReconstructionIsExact | crates/shred-ingest/src/decoder.rs:338-388 | a set whose rows inside agree with a codeword and are enough yields exactly the data rows it does not hold, with the codeword's bytes; rows at positions outside do not matter |
| DecoderRecovery.ReconstructedIncreases | crates/shred-ingest/src/decoder.rs:338-388 | whatever the erasure code answers, rows are recovered in increasing order of position |
| FecModel.ShiftIsLawful | crates/shred-ingest/src/decoder.rs:354-377 | the law assumed of the erasure code can be met by a code whose coding rows are coding shreds |
| DecoderInvariant.RunInWindow | crates/shred-ingest/src/decoder.rs:434-470 | in every reachable state every live slot and FEC set s has s + 32 >= highest, in the program's arithmetic |
| DecoderInvariant.HighestSlot | crates/shred-ingest/src/decoder.rs:425-466 | the highest slot never decreases, rises by at most 1000 once set, ignores a farther jump, and evicts nothing unless it rises |
| DecoderReports.HighestExactly | crates/shred-ingest/src/decoder.rs:425-436 | the highest slot becomes the packet's exactly if that is later and not more than 1000 ahead of one already set |
| DecoderReports.ExpiredExactly | crates/shred-ingest/src/decoder.rs:437-464 | when it rises, exactly the slots more than 32 behind it expire, unchanged, for numbers that do not wrap |
| DecoderReports.SetExpiredExactly | crates/shred-ingest/src/decoder.rs:466 | and exactly the FEC sets of such slots go |
| DecoderReports.NoTraceLeft | crates/shred-ingest/src/decoder.rs:469-503 | a packet of a slot more than 32 behind, one that is neither data nor coding, and a coding shred whose position or dimensions do not fit its set change nothing but the window |
| DecoderReports.TraceLeft | crates/shred-ingest/src/decoder.rs:469-606 | every other data shred is counted and its slot is live, every other coding shred's set is live with its dimensions |
| DecoderReports.HeldRowsStay | crates/shred-ingest/src/decoder.rs:500-507 | a row that a set holds stays the one that came first until the set is recovered and lets all rows go |
| DecoderInvariant.LiveSlotsBounded | crates/shred-ingest/src/decoder.rs:434-470 | without far jumps all live slots lie in [highest - 32, highest], at most 33 |
| DecoderInvariant.ExpireConserves | crates/shred-ingest/src/decoder.rs:438-464 | expiry moves each slot from uncounted to exactly one of partial and dropped |
| DecoderInvariant.PutSlotConserves | crates/shred-ingest/src/decoder.rs:605-650 | creation and completion keep attempted = complete + partial + dropped + live uncounted |
| DecoderLives.RunAccounted | crates/shred-ingest/src/decoder.rs:434-650 | in every reachable state that equation holds, and each slot number s with s + 32 < 2^64 has one life and at most one outcome |
| DecoderWraps.OneOutcomeExactly | crates/shred-ingest/src/decoder.rs:434-470 | no run of packets that can be received gives slot s two outcomes if and only if s + 32 < 2^64 |
| DecoderLives.EachFecSetOnce | crates/shred-ingest/src/decoder.rs:485-508 | over every run each FEC set of a slot s with s + 32 < 2^64 is created at most once and reconstructed at most once |
| DecoderWraps.OneCreationExactly | crates/shred-ingest/src/decoder.rs:466-508 | no run of packets that can be received creates a FEC set of slot s twice if and only if s + 32 < 2^64 |
| DecoderLives.RunTotals | crates/shred-ingest/src/decoder.rs:485-547 | over every run of slot numbers s with s + 32 < 2^64, coverage_shreds_expected is the sum of num_data over all sets ever created; fec_recovered_shreds and txs_decoded are the sums over live and expired slots |
| DecoderReports.RunCoverage | crates/shred-ingest/src/decoder.rs:546-604 | over every run coverage_shreds_seen is the data shreds that came while their slot was not too old, plus the recovered ones |
| DecoderReports.RunReports | crates/shred-ingest/src/decoder.rs:437-464 | over every run the log has for a slot number that does not wrap exactly its completion, with the shreds counted then, or else, once expired, what it had counted, as partial if it had decoded any transaction |
| DecoderReports.RunCountsKinds | crates/shred-ingest/src/decoder.rs:437-464 | and the attempted, complete, partial and dropped counters are the numbers of slots of each kind |
| DecoderTheorems.RunAllKept | crates/shred-ingest/src/decoder.rs:417-675 | in every reachable state every slot whose run stops short of the sentinel is sound, and complete when nothing is missing |
| DecoderTheorems.CompleteIsSound | crates/shred-ingest/src/decoder.rs:640-650 | when a packet makes the decoder count a slot complete whose run stops short of the sentinel, a last shred was seen, no index is missing and nothing past the run is held |
| DecoderCounts.ForgottenIsBehind | crates/shred-ingest/src/decoder.rs:247-252 | the accepted indices no longer held are those of the flushed run that were not sent again |
| DecoderCounts.DeliveredExactly | crates/shred-ingest/src/decoder.rs:626-638 | a direct delivery raises shreds_seen by more than the new indices exactly when its index was flushed and is not held |
| DecoderCounts.RecoveredExactly | crates/shred-ingest/src/decoder.rs:523-548 | a recovery does exactly when one of its rows is a data shred of such an index; what it counts as seen it counts as recovered |
| DecoderCounts.RunSeenCovers | crates/shred-ingest/src/decoder.rs:546-547 | over every run shreds_seen of a slot is at least the number of its distinct accepted indices |
| DecoderCounts.RunSeenExactly | crates/shred-ingest/src/decoder.rs:519-638 | and it is that number if and only if no packet of the run recounted such an index, directly or by recovery |
| DecoderHonest.RecoveredRowsOfBlock | crates/shred-ingest/src/decoder.rs:506-537 | what a set of a broadcast block recovers are data shreds carrying the payloads of their indices |
| DecoderHonest.RunKeepsBlock | crates/shred-ingest/src/decoder.rs:417-675 | whatever else is sent, the slot and its sets hold only bytes of its block |
| DecoderEndToEnd.EveryDirectShredAccepted | crates/shred-ingest/src/decoder.rs:626-637 | while the slot is not too old, every data shred sent for it was accepted |
| DecoderEndToEnd.AcceptedWasOffered | crates/shred-ingest/src/decoder.rs:506-537 | every accepted index was sent directly or lies in a FEC set of which a coding shred was sent |
| DecoderEndToEnd.EmittedIsParseOfContiguousRun | crates/shred-ingest/src/decoder.rs:417-675 | after any run of direct, duplicated, reordered, recovered and unrelated shreds, a slot anchored at 0 has emitted the greedy parse of the block's payloads over the maximal run from 0 |
| DecoderRecovery.RunServes | crates/shred-ingest/src/decoder.rs:466-549 | while the slot is not too old, every data row that a set of the block holds has been accepted, and all its data indices once it is recovered |
| DecoderRecovery.RecoverySucceeds | crates/shred-ingest/src/decoder.rs:475-549 | if, from a coding shred of the set on, num_data different rows of it were sent, the last by a coding shred, all data indices of the set are accepted |
| DecoderRecovery.EveryDeliveredAccepted | crates/shred-ingest/src/decoder.rs:475-638 | every index sent directly, or in a set of which enough rows were sent, is accepted |
| DecoderRecovery.RunAnchors | crates/shred-ingest/src/decoder.rs:239-245 | a slot is anchored at 0 if the first packet with which it accepts anything has it accept index 0, directly or by recovery |
| DecoderRecovery.DeliveryDecodesAll | crates/shred-ingest/src/decoder.rs:475-660 | if the slot starts with index 0 and every index below n was sent, directly or by enough rows of its set, in any order and however often, all of them have been parsed |
| DecoderEntries.EntriesAreEmitted | crates/shred-ingest/src/decoder.rs:417-675 | if the payloads below n begin with written Entries and were all delivered, the slot has emitted these Entries' transactions first, in order |
| DecoderEntries.BlockIsEmitted | crates/shred-ingest/src/decoder.rs:417-675 | and if they are the whole block, exactly the block's transactions |
| DecoderEndToEnd.RunsAgree | crates/shred-ingest/src/decoder.rs:519-660 | two runs that accepted the same indices from the same anchor hold the same bytes and, with the same boundary, emitted the same: order, duplicates and recovery do not show |
| DecoderExamples.RecoveredMeetsDirect | crates/shred-ingest/src/decoder.rs:506-566 | the premises of RunsAgree can be met by bytes: a slot recovered from a raw coding shred alone and one delivered by a raw data shred, from the same block |
| DecoderExamples.RecoveredThoughReceived | crates/shred-ingest/src/decoder.rs:519-548 | two raw shreds, the data shred and then the coding shred of its set, after which one index is accepted, two shreds are counted and one as recovered |
| DecoderExamples.SentinelReanchors | crates/shred-ingest/src/decoder.rs:239-252 | two packets, the first of index u32::MAX - 1: the second is appended to it, whatever its index |
| DecoderExamples.SentinelWraps | crates/shred-ingest/src/decoder.rs:239-252 | two packets, the first of index u32::MAX: index 0 is appended to it |
| DecoderExamples.SentIsReceived | crates/shred-ingest/src/decoder.rs:417-424 | the packets of the sentinel's runs are parses of raw bytes |
| DecoderExamples.BoundaryDependsOnOrder | crates/shred-ingest/src/decoder.rs:256-310 | two runs of one block with the same anchor and accepted indices that emit different transactions |
| DecoderEndToEnd.RawShredsAreOfBlock | crates/shred-ingest/src/decoder.rs:614-624 | a raw data shred delivers directly the very payload that recovery of its padded row would |
| SlotStates.SlotState.SetFirstIndex | crates/shred-ingest/src/decoder.rs:239-245 | sets the anchor once |
| SlotStates.SlotState.FlushContiguous | crates/shred-ingest/src/decoder.rs:247-252 | the loop moves the whole contiguous run into the buffer |
| SlotStates.SlotState.LocateBoundary | crates/shred-ingest/src/decoder.rs:260-288 | the scan fixes the boundary once |
| SlotStates.SlotState.TryDeserialize | crates/shred-ingest/src/decoder.rs:256-310 | returns exactly the transactions not yet emitted and leaves the slot as one deserialization does |
| SlotStates.FindBoundary | crates/shred-ingest/src/decoder.rs:264-288 | the scanning loop returns the least offset that decodes |
| SlotStates.DecodeEntries | crates/shred-ingest/src/decoder.rs:290-307 | the decoding loop terminates with the greedy parse |
| FecSets.FecSet.Reconstruct | crates/shred-ingest/src/decoder.rs:338-388 | marks the set and returns what the erasure code gives for the missing positions, in order |
| ShredDecoders.ShredDecoder.RetainSlots | crates/shred-ingest/src/decoder.rs:438-464 | drops the expired slots in any order, with their outcomes |
| ShredDecoders.ShredDecoder.MoveWindow | crates/shred-ingest/src/decoder.rs:425-466 | raises the highest slot unless the jump is implausible, and expires slots and sets |
| ShredDecoders.ShredDecoder.HoldCode | crates/shred-ingest/src/decoder.rs:475-508 | a coding shred creates its set, adds its row and recovers, once |
| ShredDecoders.ShredDecoder.DeliverRows | crates/shred-ingest/src/decoder.rs:509-592 | recovered rows enter their slot, which is settled |
| ShredDecoders.ShredDecoder.DeliverData | crates/shred-ingest/src/decoder.rs:597-672 | a data shred enters its slot, which is settled |
| ShredDecoders.ShredDecoder.Handle | crates/shred-ingest/src/decoder.rs:417-675 | one packet takes the decoder to exactly what the step of the state machine gives, and the rolling log stays the last 500 outcomes |
| ShredDecoders.ShredDecoder.Receive | crates/shred-ingest/src/decoder.rs:417-424 | the same from raw bytes; a packet without a header changes nothing |
| FanInLives.FastestIsEarliest | crates/shred-ingest/src/fan_in.rs:500-537 | the remembered delivery is a shred-tier one with the least timestamp |
| FanInLives.EntriesRemember | crates/shred-ingest/src/fan_in.rs:481-573 | in every reachable state an entry has its first delivery's tier, and a shred-tier entry the earliest shred of its lifetime with its source |
| FanInLives.EveryDeliveryCountedOnce | crates/shred-ingest/src/fan_in.rs:482-495 | over every run accepted deliveries = firsts + duplicates, and firsts = downstream offers |
| FanInLives.OneOfferPerLife | crates/shred-ingest/src/fan_in.rs:482-492 | each lifetime of an entry has exactly one downstream offer |
| FanInLives.PresentLife | crates/shred-ingest/src/fan_in.rs:582-590 | the deliveries of the present entry are those of the last lifetime; eviction begins a new one |
| FanInCalls.RunLeads | crates/shred-ingest/src/fan_in.rs:496-573 | over every run, whichever tier began an entry and however often either delivered, every lead counter of every source is what the leads measured and corrected for its deliveries come to, from their own timestamps |
| FanInCalls.RunRaces | crates/shred-ingest/src/fan_in.rs:530-560 | and the races recorded against the RPC are exactly those leads, each under the source of the shred that was measured |
| FanInCalls.RunFirsts | crates/shred-ingest/src/fan_in.rs:482-495 | every source's firsts and duplicates are its own accepted deliveries that began an entry and that did not, and exactly the former are offered downstream, in order |
| FanInCalls.RpcFirstMeasures | crates/shred-ingest/src/fan_in.rs:541-560 | when the RPC delivered first, each shred's own source is charged how much later the shred came, in whole microseconds, and wins only if the shred is dated a microsecond earlier; no other source changes |
| FanInCalls.IgnoredExactly | crates/shred-ingest/src/fan_in.rs:463-479 | a delivery leaves no trace exactly when it has no signature, or is a shred-tier one with no key in a nonempty filter |
| FanInCalls.EvictedExactly | crates/shred-ingest/src/fan_in.rs:582-590 | an eviction removes exactly the visited entries whose first RPC delivery, or earliest shred, is not after the cutoff |
| FanInLeads.RelayLeads | crates/shred-ingest/src/fan_in.rs:500-573 | what one delivery does to every source's lead counters: measure, move or nothing |
| FanInLeads.LeadSums | crates/shred-ingest/src/fan_in.rs:505-516 | over every orderly run, in range or not, a source's lead sum and wins are the sums over lifetimes of what measurement and corrections moved to it |
| FanInExact.SumsExactly | crates/shred-ingest/src/fan_in.rs:500-559 | all lead sums are exact after every event if and only if every correction found the measured lead still held and counted, and replaced it by one in range, or only repeated the source of a lead that was not counted |
| FanInExact.OneCorrectionIsClean | crates/shred-ingest/src/fan_in.rs:500-535 | which holds for sums and wins when at most one shred improves on a measurement, both leads in range |
| FanInExact.WinsExactly | crates/shred-ingest/src/fan_in.rs:517-529 | all wins are exact after every event if and only if at every correction the lead held is positive exactly when the one first measured is, and the new one not beyond the cap, or a lead beyond the cap stays with its source |
| FanInExact.ExactAtEnd | crates/shred-ingest/src/fan_in.rs:500-559 | if all leads were first measured in range, exact sums or wins at the end of the run alone imply the same |
| FanInLeads.MeasurementCount | crates/shred-ingest/src/fan_in.rs:555-559 | the number of measurements of all sources is the number of lifetimes that saw both tiers and were first measured in range |
| FanInExact.OrderDoesNotMatter | crates/shred-ingest/src/fan_in.rs:493-572 | over clean runs sums, wins and measurements are the same whether the fastest shred is processed before or after the RPC, and in whatever order deliveries are processed |
| FanInExact.TwoCorrectionsAreStale | crates/shred-ingest/src/fan_in.rs:533-535 | two corrections leave a microsecond with the wrong source |
| FanInExact.OutOfRangeLeadUnderflowsWins | crates/shred-ingest/src/fan_in.rs:517-520 | a lead out of range, corrected, takes lead_wins below zero |
| FanInExact.CapDependsOnOrder | crates/shred-ingest/src/fan_in.rs:500-529 | a lead beyond the cap counts when the fastest shred is processed after the RPC and not when before |
| FanIns.FanIn.Relay | crates/shred-ingest/src/fan_in.rs:462-575 | one visit of a relay thread takes map, counters, offers and race calls to what the step gives |
| FanIns.FanIn.Correct | crates/shred-ingest/src/fan_in.rs:500-537 | the correction moves sum and win from the old source to the new, also when they are the same |
| FanIns.FanIn.EvictOld | crates/shred-ingest/src/fan_in.rs:582-590 | a part of an eviction pass, over any set of signatures, removes exactly the entries among them not newer than the cutoff |
| ShredRaceTheorems.TournamentWins | crates/shred-ingest/src/shred_race.rs:456-476 | n(n-1)/2 results are recorded and the feed of rank i wins exactly n-1-i |
| ShredRaceTheorems.TournamentIsOrder | crates/shred-ingest/src/shred_race.rs:456-476 | one feed beats another exactly when it arrived earlier |
| ShredRaceTheorems.LeadsNonNegative | crates/shred-ingest/src/shred_race.rs:450-460 | all leads of a sorted race are >= 0 |
| ShredRaceTheorems.LeadsNearlyAdd | crates/shred-ingest/src/shred_race.rs:460 | a lead over two steps exceeds the sum of the steps by 0 or 1 microsecond |
| ShredRaceTheorems.OrderUnique | crates/shred-ingest/src/shred_race.rs:448-451 | with distinct timestamps the sorted order, and so every result, does not depend on the order of arrival |
| ShredRaceTheorems.PairsTallyRun | crates/shred-ingest/src/shred_race.rs:114-123 | over every run each pair's wins, lead count, lead sum and samples are those of the results recorded for it; a_wins + b_wins = lead_count |
| ShredRaceLives.RunEntriesOk | crates/shred-ingest/src/shred_race.rs:431-446 | in every reachable state an entry holds distinct feeds, at most the expected number, or its first alone |
| ShredRaceLives.OneRecordingPerLife | crates/shred-ingest/src/shred_race.rs:431-447 | between two recordings for one shred its entry was removed |
| ShredRaceLives.RecordingIsFullAndInTime | crates/shred-ingest/src/shred_race.rs:431-476 | a recording is of exactly the expected number of distinct feeds, each against each, the last processed within 10 s of insertion |
| ShredRaceLives.WinsAreBacked | crates/shred-ingest/src/shred_race.rs:211-257 | over every run, for every nonzero address, wins + arrivals waiting in open races <= arrivals seen |
| ShredRaceWins.EntriesStand | crates/shred-ingest/src/shred_race.rs:430-487 | in every reachable state an entry holds the first arrival of each feed since it was inserted, in order and up to the number expected, and when it was inserted |
| ShredRaceWins.SweptExactly | crates/shred-ingest/src/shred_race.rs:344-352 | an eviction removes exactly the visited entries inserted at or before the cutoff |
| ShredRaceWins.SeenExactly | crates/shred-ingest/src/shred_race.rs:211-223 | over every run exactly the nonzero addresses of arrivals are known, with their number and the time of the last |
| ShredRaceWins.RunWins | crates/shred-ingest/src/shred_race.rs:453-457 | over every run an address's wins lie between the recorded races all of whose earliest arrivals came from it and those of which one did, the leader cache agreeing |
| ShredRaceWins.WinsExactly | crates/shred-ingest/src/shred_race.rs:245-257 | and where the earliest arrival is not tied they are exactly the recorded races whose earliest arrival came from it |
| ShredRaceWins.ResultCounted | crates/shred-ingest/src/shred_race.rs:114-123 | a result adds one win of the winner over the loser and its lead between them, and nothing between others |
| ShredRaceWins.TxRaceWinner | crates/shred-ingest/src/shred_race.rs:386-400 | a transaction race with a lead that is not negative is a win of the shred source over the RPC, with a negative one of the RPC, and adds its size to their leads |
| ShredRaces.SortByNs | crates/shred-ingest/src/shred_race.rs:449-451 | the sort returns a permutation in order of timestamp |
| ShredRaces.ShredRaceTracker.ProcessArrival | crates/shred-ingest/src/shred_race.rs:407-487 | one arrival takes races, pairs and addresses to what the step gives, for some sorted order |
| ShredRaces.ShredRaceTracker.RecordRace | crates/shred-ingest/src/shred_race.rs:456-476 | the nested loops record exactly the tournament's results |
| ShredRaces.ShredRaceTracker.RecordTxRace | crates/shred-ingest/src/shred_race.rs:386-400 | the shred source wins a lead that is not negative, the RPC any other |
| ShredRaces.ShredRaceTracker.SweepOld | crates/shred-ingest/src/shred_race.rs:344-352 | eviction removes exactly the entries inserted at or before the cutoff |
| OrderStatistics.Sort | crates/shred-ingest/src/source_metrics.rs:72-83 | sorted, and a permutation |
| OrderStatistics.SortGivesRank | crates/shred-ingest/src/source_metrics.rs:72-83 | entry k of the sorted copy is the sample of rank k |
| OrderStatistics.RankUnique | crates/shred-ingest/src/source_metrics.rs:72-83 | rank determines the sample |
| OrderStatistics.CountBelowPermuted | crates/shred-ingest/src/source_metrics.rs:72-83 | rank depends on the samples, not on where the ring holds them |
| Reservoir.SampleRing.Push | crates/shred-ingest/src/source_metrics.rs:62-70 | the ring goes on holding the window of the last 4096 samples of the whole history |
| Reservoir.SampleRing.HoldsTheWindow | crates/shred-ingest/src/source_metrics.rs:45-70 | as a multiset the used places are that window |
| Reservoir.SampleRing.Percentiles | crates/shred-ingest/src/shred_race.rs:75-87 | the percentiles are the samples of rank floor(n*q/100) of the window, p50 <= p95 <= p99; none when empty |
| Metrics.SourceMetrics.PushSlotStats | crates/shred-ingest/src/source_metrics.rs:220-226 | the log is the last 500 outcomes, in order |
| Metrics.SourceMetrics.RecordLeadTimeUs | crates/shred-ingest/src/source_metrics.rs:237-251 | a lead above the cap is backfill, one out of range is dropped, any other is counted, summed, won and sampled |
| Frame.FrameBytes | src/capture.rs:151-204 | what stands at every byte of the frame |
| Frame.CaptureRoundTrip | src/analyze.rs:83-122 | for every gated payload the written packet passes all the analyzer's checks and yields the same group, payload, slot, index and nanosecond, and the same verdict data or coding |
| Frame.ReadExactly | src/analyze.rs:83-122 | a frame is read exactly if it has 119 bytes, the IPv4 ethertype and the UDP protocol, to the address at byte 30 and the payload from byte 42 |
| Frame.LengthFieldsExactly | src/capture.rs:152-153 | the IPv4 total length (section 3.1 of RFC 791) and the UDP length (RFC 768) are right exactly up to 65507 payload bytes |
| Frame.GroupMac | src/capture.rs:155-157 | the group MAC carries the low 23 bits of the group address (section 6.4 of RFC 1112) |
| CaptureModel.RingMirrorsStream | src/capture.rs:71-106 | after any stream the directory holds exactly the open generation and the last ring_files closed ones |
| CaptureModel.RingKeepsSuffix | src/capture.rs:76-102 | the directory's records are a suffix of the stream; what is lost is whole oldest generations |
| CaptureModel.RingBounds | src/capture.rs:71-106 | the accounted bytes are at most (ring_files + 1) * max_bytes, and a full ring's archives keep more than ring_files * (max_bytes - largest record) |
| CaptureModel.RingFilesFor | src/config.rs:118-121 | as many files as fit the size given, but at least two |
| Captures.PcapCaptureWriter.Rotate | src/capture.rs:76-102 | renames the active file to the next generation and deletes the oldest archive beyond the ring |
| Captures.PcapCaptureWriter.WriteShred | src/capture.rs:207-233 | rotates first when the packet would overflow, then appends and accounts it |
| Analyze.ReadCapture | src/analyze.rs:73-146 | the reading loop builds the race map: first arrival, then first from another feed |
| Analyze.Aggregate | src/analyze.rs:150-162 | matched shreds, every competing feed's wins, and every lead with its multiplicity, in whatever order the map yields them |
| Analyze.Percentile | src/analyze.rs:262-268 | of a sorted list the sample of rank floor(n*q/100), the last sample for q of 100 or more, 0 of an empty list |
| OfflineLive.StepInStep | src/analyze.rs:125-146 | one delivery, data or coding, keeps the race over all deliveries and the live race alike, and the live race records a result exactly when the other finds a match |
| OfflineLive.RacesAgree | src/analyze.rs:125-162 | whatever is added up over results comes to the same live and over all matched shreds |
| OfflineLive.VerdictsAreRecorded | src/analyze.rs:125-162 | for every winner, loser and lead, as many live results as matched shreds with that winner, loser and lead in whole microseconds |
| OfflineLive.LiveCounters | crates/shred-ingest/src/shred_race.rs:431-478 | every pair's wins, race count and lead sum, live, over all deliveries |
| OfflineAgreement.AgreesExactly | src/analyze.rs:125-146 | the live race and the analyzer hold the same about a shred if and only if neither its first delivery nor the first from another feed is a coding shred |
| OfflineAgreement.OfflineAgreesWithLive | src/analyze.rs:125-162 | if that is so of every shred, both feeds' wins, the race count and the lead sum of every pair are the analyzer's |
| OfflineAgreement.TwoFeedReportAgrees | src/analyze.rs:150-162 | and with two feeds the analyzer's wins and matched count are the live pair's |
| OfflineAgreement.RingHolds | src/capture.rs:76-106 | the ring always holds exactly the packets from some delivery on |
| OfflineAgreement.RingReportAgrees | src/capture.rs:207-233 | read back from the ring, the report agrees with a live race begun at the first packet it still holds |
| OfflineAgreement.CodingShredsRaceLiveOnly | crates/shred-ingest/src/receiver.rs:491-503 | a coding and a data shred of one slot and index from two feeds are a finished race live and nothing offline |
| LeaderCaches.FillIsLast | crates/shred-ingest/src/leader_cache.rs:171-185 | in a map filled from a list the last insertion of a key wins |
| LeaderCaches.LeaderExactly | crates/shred-ingest/src/leader_cache.rs:128-143 | after a refresh a packet taken for its slot leader's comes from the last node listed under the resolved address, whose key is that of a validator scheduled for the slot; and where such validators share one key, every such packet is so taken |
| LeaderCaches.SlotsFollowEpoch | crates/shred-ingest/src/leader_cache.rs:187-200 | a listed validator's relative slot r is cached as the slot as far from the current one as r is from the epoch's slot index, so the current slot's leader is the one scheduled at that index |
| LeaderCaches.OnlyScheduledSlots | crates/shred-ingest/src/leader_cache.rs:187-200 | and no slot is cached that no listed validator is so scheduled for |
| LeaderCaches.ResolvesAsBefore | crates/shred-ingest/src/leader_cache.rs:206-212 | without the accounts every address resolves as it did before |
| LeaderCaches.ResolvesToLastClient | crates/shred-ingest/src/leader_cache.rs:240-261 | an overlay address resolves to the client address of the last account long enough that gives it a nonzero one, any other to itself |
| LeaderCaches.PathsAgreeExactly | crates/shred-ingest/src/receiver.rs:487-546 | the two receive paths hand over the same address exactly for addresses that read the same backwards |
| LeaderCaches.ReadNodes | crates/shred-ingest/src/leader_cache.rs:171-185 | nodes without a readable key or an IPv4 gossip address are skipped |
| LeaderCaches.ReadSchedule | crates/shred-ingest/src/leader_cache.rs:187-200 | exactly the slots of listed validators are filled, each with the key of a validator scheduled for it |
| LeaderCaches.ReadUsers | crates/shred-ingest/src/leader_cache.rs:235-261 | accounts too short or with a zero address are skipped |
| LeaderCaches.LeaderCache.Refresh | crates/shred-ingest/src/leader_cache.rs:155-215 | without schedule or nodes nothing changes; without accounts the old client addresses stay |

## Left out

- Sockets, timestamps from the kernel, the heartbeat and shred-version filters, core pinning: packets are
  inputs with a timestamp.
- Channels: an offer downstream is recorded as made; that `try_send` may drop it, and `txs_dropped`, which
  only the recovery path counts, are not modelled.
- gRPC, WebSocket and RPC sources, and the RPC calls behind the leader cache: their answers are inputs.
- Decode latency, `last_touch_ns` and `earliest_recv_ns`.
- Percentages and averages in floating point: the integer counters behind them are modelled.
- Snapshots, the CSV and JSONL writers, the pcap file header, and all commands that only show or install.
- Failures of rename, remove and open, and a restart of the capture writer.
- `slot_known` of the leader cache: nothing calls it.
- The analyzer's per-feed counts of data and coding shreds, and its `--min-matched` warning.
- FanInExact.SumsExactly: lifetimes that the RPC began, or that saw two RPC deliveries, are not orderly: they have
  no one lead to be exact about, and `FanInCalls.RunLeads` says what they count. It speaks of every prefix of
  the run: at the end alone, errors of lifetimes measured out of range can cancel each other (`FanInExact.ExactAtEnd`).
- FanInExact.WinsExactly: the same.
- FanInLeads.RelayLeads: for orderly lifetimes only; `FanInCalls.RunLeads` covers the others.
- ShredRaceWins.WinsExactly: where the earliest arrivals of a race from two addresses are tied, the sort decides
  which of them wins; `ShredRaceWins.RunWins` bounds both.
- DecoderReports.RunReports: for slot numbers that do not wrap; any other can expire twice.
- DecoderReports.RunCountsKinds: the same.
- DecoderLives.RunTotals: assumes that no slot number of the run wraps when 32 is added, because the
  totals are over expired slots by number, and only such a number can expire twice.
- DecoderCounts.RunSeenExactly: for slot numbers that do not wrap, for the same reason.
- CaptureModel.RingBounds: counts the bytes the program accounts, frames without the pcap record headers.
- CaptureModel.RingMirrorsStream: `next_gen` is a u32 in the program and is not wrapped here.
- LeaderCaches.LeaderCache.Refresh: is one step; a lookup while the maps are being refilled is not modelled.
- LeaderCaches.LeaderExactly: where validators scheduled for one slot have different keys, the map's iteration
  order decides which of them is the leader, and only the first half holds.
