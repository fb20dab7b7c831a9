# OpenTTT: machine-checked properties

OpenTTT proves *when* something happened: clients collect signed time from Roughtime and HTTPS sources, synthesise one
time from them, wrap it in a Proof of Time (PoT), and let an adaptive switch decide per block between a fast path (TURBO)
and a careful one (FULL). This project models the deterministic parts of the TypeScript SDK, the Rust tree beside it and
the subgraph, and proves what they promise. `dafny verify dfyconfig.toml` checks it.

| file | what it is about |
|---|---|
| `Tlv.dfy` | Roughtime tag/length/value messages: builder and both parsers |
| `MerkleWalk.dfy`, `RoughtimeValidation.dfy`, `HonestServer.dfy`, `HonestRust.dfy` | the Merkle path, the response check, the server it must accept, and what the Rust client reads of that server |
| `RoughtimeWire.dfy` | the Rust client's reading of the same packets, and both request builders |
| `SlidingWindow.dfy`, `TsSwitch.dfy`, `RustSwitch.dfy`, `SwitchRefinement.dfy`, `SwitchStore.dfy` | the two adaptive switches, how they relate, and the store of one per context |
| `Median.dfy`, `NonceCache.dfy`, `TimeSynthesis.dfy`, `NonceReplay.dfy` | time synthesis, PoT verification, its replay cache, and runs that show the cache's bounds are needed |
| `RoughtimeChain.dfy`, `ChainTime.dfy` | chains of attestations, their checks, the two clients that collect them, the time synthesised from a chain |
| `PotRecord.dfy`, `PotVerifier.dfy` | PoT records and frames in two languages, the frame verifier |
| `Float32.dfy`, `PotBinary.dfy`, `PotDivergence.dfy` | single-precision rounding, the compact binary form of a PoT, and what it does to the divergence check |
| `FiloQueue.dfy`, `SwapStats.dfy` | the newest-first queue; daily and hourly swap aggregates |
| `ByteOrder.dfy`, `Wrappers.dfy` | integers as bytes; Option and Result |

Code that updates state is modelled as classes and methods with loops, each proved against a function of its inputs or
of its old state; the properties are then proved of those functions over every input and every run. Hashes, MACs,
signatures and the TLS exporter are parameters: arbitrary functions, of which only "an honest signature verifies" is
assumed, and only where a member says so. Rounding to single precision is any codec that picks a nearest value.
Binding properties therefore read "equal, or here are two inputs that collide". Network answers and clock readings are
inputs too. Each call's clock readings are separate values, as the code makes them separately.

Where the code differs from what is written about it, the model follows the code:

- An INDX of 2^31 or more is refused, because `>>=` reads it as negative (`src/roughtime_source.ts:406`); the protocol allows 32 bits.
- The TypeScript request is 1032 bytes, not the 1024 its comment names: the filler tag brings its own 8 bytes of header (`src/roughtime_source.ts:248-254`).
- The Rust switch's `fail_count` is called consecutive and "sustained good behaviour" is promised TURBO, but only `reset` clears the counter (`src/roughtime/adaptive_switch.rs:9`, `:29`): after one failure TURBO is out of reach, until the counter wraps at 2^32.
- The nonce cache is described with a 60 s lifetime; the code keeps 300 s (`src/time_synthesis.ts:196-199`).
- YELLOW_PAPER.md gives a 100 ms tolerance for PoT readings; the code uses 10, 25 or 50 ms by stratum, or the reading's own uncertainty if larger.
- `push` of the FILO queue speaks of evicting the oldest entry; it evicts nothing and goes over capacity (`src/roughtime/filo_queue.rs:63-75`).
- `verify_spread` implies `verify_causal_ordering` exactly when every two neighbouring radii sum to at least 2 seconds, and a common instant of all intervals exactly when every two radii do.
- The median of an even chain wraps once two midpoints sum to 2^64.
- Rust derives the binding key with an HMAC it calls an approximation of the TLS exporter (`src/roughtime/quic_transport.rs:39-63`) and says it matches Node's, which TypeScript calls (`src/tls_binding.ts:46-60`). Nothing makes the two equal, and a Rust frame whose key differs is refused.
- `serializeToBinary` rounds uncertainties and confidence to single precision and drops the strata of readings: a PoT at the edge of its tolerance can fail after decoding, and one that failed can pass. It also reserves a byte for each UTF-16 unit of a name, so a name with other than ASCII characters is cut.

## Model

| member | source | states |
|---|---|---|
| Tlv.DecodeEncode | src/roughtime_source.ts:174-221 | parsing a built message gives back exactly the field list it was built from, for every non-empty list within 32-bit sizes |
| Tlv.EncodeDecode | src/roughtime_source.ts:196-221 | every non-empty buffer the parser accepts is the encoding of the list read from it, so its values tile its tail |
| Tlv.StartsMonotone | src/roughtime_source.ts:213-219 | in an accepted buffer the announced value positions never go back |
| Tlv.WireLayout | src/roughtime_source.ts:174-193 | in a built message the count stands at byte 0, the running total of the value lengths before value i at byte 4i, and tag i at byte 4n + 4i, least significant byte first |
| Tlv.ValueLayout | src/roughtime_source.ts:174-193 | the values stand end to end behind byte 8n |
| Tlv.ParseEncode | src/roughtime_source.ts:174-221 | parser after builder is the tag map, repeated tags and the empty message included |
| Tlv.BuildMessage | src/roughtime_source.ts:174-193 | the three loops build the specified encoding, or throw exactly when the count or a written offset leaves 32 bits |
| Tlv.ParseMessage | src/roughtime_source.ts:196-221 | the loops compute the specified parse, null on exactly the malformed buffers |
| Tlv.ParseAccepts | src/roughtime_source.ts:196-221 | a buffer is accepted exactly when its count is 0, or it holds the header it announces and its offsets ascend and stay inside it |
| Tlv.RustParseMsg | src/roughtime/wire.rs:36-64 | the Rust loops (a zeroed vector filled from index 1, tags from their base, three comparisons before each insertion) compute the map of exactly the entries those comparisons let through |
| Tlv.ParsersAgree | src/roughtime/wire.rs:36-64 | the Rust parser answers exactly for 1 to 64 tags with their header in the buffer; the answer is the map of the fields inside the buffer, and equals the TypeScript answer exactly when no field lies outside |
| Tlv.SameCuts | src/roughtime/wire.rs:54-62 | field by field, the two independently written value loops cut at the same places and reject the same entries |
| MerkleWalk.Walk | src/roughtime_source.ts:398-408 | the loop over PATH ends at the climb of its whole nodes and at the index shifted once per node |
| MerkleWalk.IndexUsedUp | src/roughtime_source.ts:401-409 | the leftover-index check passes exactly for INDX below both 2^31 and 2^(number of nodes) |
| MerkleWalk.ClimbBinds | src/roughtime_source.ts:403-408 | two climbs from one index that meet had the same start and the same nodes, or unwinding them gives two explicit inputs with one hash |
| MerkleWalk.WalkBinds | src/roughtime_source.ts:398-410 | for one ROOT, INDX and path length the walk admits one request packet and one path, or an explicit collision |
| MerkleWalk.PathReachesRoot | src/roughtime_source.ts:398-410 | the path of siblings leads to the root from every leaf below 2^31 of any tree, and from every leaf below 2^32 of a tree of depth up to 32, although the index turns negative there |
| MerkleWalk.RootIsTreeHash | src/roughtime_source.ts:398-408 | the tree built level by level has the root that hashing from the top down gives: packets behind a 0 byte, left half then right half behind a 1 byte |
| MerkleWalk.NodesOfJoin | src/roughtime_source.ts:402-407 | the nodes cut out of PATH are the nodes that were joined into it |
| RoughtimeValidation.AcceptanceIsEndorsed | src/roughtime_source.ts:299-413 | an accepted response holds a delegation signed by the long-term key, a report signed by the delegated key, a time inside the delegation and a path from this very request to the signed root, and exactly that time is returned |
| RoughtimeValidation.EndorsedIsAccepted | src/roughtime_source.ts:299-413 | conversely every response that holds such evidence is accepted with its time |
| RoughtimeValidation.AcceptedRequestsBind | src/roughtime_source.ts:398-412 | one signed report, INDX and path length are accepted for one request only, or a hash collision is exhibited |
| HonestServer.HonestReplyAccepted | src/roughtime_source.ts:299-413 | an honest server's reply to member i of a batch of 2^depth requests, fields in any order and extra fields allowed, is accepted with exactly the server's time and radius if i is below 2^31, and refused otherwise |
| HonestServer.PlainReplyAccepted | src/roughtime_source.ts:299-413 | the reply with only the required fields meets all conditions, for every batch up to 2^31 |
| HonestServer.RequestIncluded | src/roughtime_source.ts:398-410 | the path sent on the wire proves each request of the batch under the batch's root |
| RoughtimeWire.ClientsReadTheSame | src/roughtime/wire.rs:82-118 | on a packet whose values have the standard widths and at most 64 tags a message, the Rust client reads exactly the values the TypeScript check rests on |
| RoughtimeWire.ResponseMeans | src/roughtime/wire.rs:82-118 | a packet is answered exactly when it starts with ROUGHTIM, holds its message, and signature, midpoint, radius and root have their widths; a missing index is 0, a missing path empty, a missing delegation a key of zeros valid from 0 to 2^64 - 1 |
| HonestRust.HonestReplyRead | src/roughtime/wire.rs:82-118 | from any honest reply of at most 64 tags a message the Rust client reads the server's midpoint, radius, root, delegation, path and batch position, also where TypeScript refuses the position |
| HonestRust.PlainReplyRead | src/roughtime/wire.rs:82-118 | the reply with only the required fields is such a reply |
| RoughtimeWire.RequestsCarryNonce | src/roughtime/wire.rs:120-135 | the requests have 1024 and 1032 bytes; parsed, the Rust one is version 1 and the nonce, and the TypeScript one versions 1 and 0x8000000c, the hash of 0xFF and the server key, the nonce, type 0 and 904 zeros |
| RoughtimeWire.RustRequestBytes | src/roughtime/wire.rs:120-135 | the Rust request begins with ROUGHTIM and has the nonce at bytes 32 to 64 |
| RoughtimeWire.TsRequestCarries | src/roughtime_source.ts:229-259 | the padded TypeScript request still parses, and every pair that was asked is found in it |
| RoughtimeWire.TagsAscend | src/roughtime_source.ts:239-252 | the pairs stand in strictly ascending order of tags, with and without padding, as both sorts leave them |
| TsSwitch.ClosedForm | src/adaptive_switch.ts:58-80 | after any blocks the mode is TURBO exactly when at some block at least 95 % of the last 20 results matched and at no block since fewer than 85 % did, matches counted as positions |
| TsSwitch.SwitchCause | src/adaptive_switch.ts:64-79 | a change of mode has a cause in the last 20 results: at least 95 % matches for TURBO, fewer than 85 % for FULL, and never before block 20 |
| SlidingWindow.WindowIsCounted | src/adaptive_switch.ts:62-63 | what the code counts in its window is the number of matching positions among the last 20 results |
| TsSwitch.SwitchesApart | src/adaptive_switch.ts:62-79 | two changes of mode are at least three blocks apart |
| TsSwitch.AdaptiveSwitch.VerifyBlock | src/adaptive_switch.ts:52-81 | each block adds one result, whether its order is the recorded one and its time less than 2000, 200, 500 or 10 ms off by tier (or the given tolerance), and TURBO is returned exactly when some 20 results reached 95 % and none since fell below 85 % |
| TsSwitch.AdaptiveSwitch.RecordResult | src/adaptive_switch.ts:58-80 | pushing and shifting the history in place keeps it the last 20 results and the mode that of a fresh switch run on everything seen |
| TsSwitch.AdaptiveSwitch.CompareTransactionOrder | src/adaptive_switch.ts:118-124 | the loop answers true exactly for equal lists |
| RustSwitch.FailCountExact | src/roughtime/adaptive_switch.rs:72-86 | the failure counter is the number of positions with a late or corrupt block since reset, modulo 2^32, however many good blocks came between |
| RustSwitch.CooldownExact | src/roughtime/adaptive_switch.rs:72-91 | after k failures modulo 2^32 the cooldown is 2^k, or 256 from k = 8 on, less the blocks passed since the last one, never below zero; without failures it is zero |
| RustSwitch.SinceFailureMeans | src/roughtime/adaptive_switch.rs:88-91 | that many blocks before the present one were intact and in time, and the one before them was not |
| RustSwitch.TurboIsEarned | src/roughtime/adaptive_switch.rs:3-9 | NoForcedTurbo: TURBO implies a full window, 17 matches, no cooldown and no pending failure |
| RustSwitch.NoTurboAfterFailure | src/roughtime/adaptive_switch.rs:106-114 | with 1 to 2^32 - 1 failures since reset the mode is FULL, whatever follows |
| RustSwitch.EventualTurbo | src/roughtime/adaptive_switch.rs:66-117 | EventualTurbo decided: from any reachable state twenty good blocks end in TURBO exactly when the failure counter is 0 |
| RustSwitch.WrapAround | src/roughtime/adaptive_switch.rs:72-86 | the bound of 2^32 is needed: a run with 2^32 failures that ends in TURBO |
| RustSwitch.AdaptiveSwitch.VerifyBlock | src/roughtime/adaptive_switch.rs:66-117 | the struct stays equal to a fresh switch run on its blocks; DelayRejectionTriggersFull: a late or corrupt block forces FULL |
| RustSwitch.AdaptiveSwitch.Reset | src/roughtime/adaptive_switch.rs:134-139 | reset is a fresh start |
| SwitchRefinement.SameWithoutFailures | src/roughtime/adaptive_switch.rs:88-117 | on runs without failing blocks both languages have the same window and mode at every step |
| SwitchRefinement.RustClosedForm | src/roughtime/adaptive_switch.rs:66-117 | with fewer than 2^32 failures Rust is in TURBO exactly when no block failed, some 20 results reached 95 % and none since fell below 85 % |
| SwitchRefinement.RustTurboImpliesTsTurbo | src/roughtime/adaptive_switch.rs:66-117 | with fewer than 2^32 failures Rust is in TURBO only where TypeScript is |
| SwitchRefinement.WrapAroundSeparates | src/roughtime/adaptive_switch.rs:80-86 | with 2^32 late blocks it is not so |
| SwitchStore.OtherContextsDropOut | src/roughtime/as_store.rs:51-79 | however calls interleave, a context is where its own calls alone would have brought it |
| SwitchStore.SnapshotsFollow | src/roughtime/as_store.rs:62-76 | replacing the caller's snapshot keeps all snapshots showing their contexts' states |
| SwitchStore.AdaptiveSwitchStore.GetOrCreate | src/roughtime/as_store.rs:45-48 | a new context gets a switch of its own, an old one keeps its switch |
| SwitchStore.AdaptiveSwitchStore.VerifyAndPersist | src/roughtime/as_store.rs:51-79 | no two contexts share a switch; the returned mode is that of a lone switch on this context's blocks, and only this context's snapshot changes, to that switch's state |
| SwitchStore.AdaptiveSwitchStore.CurrentMode | src/roughtime/as_store.rs:82-86 | the mode of a lone switch on this context's blocks, FULL for a context never seen |
| SwitchStore.AdaptiveSwitchStore.SnapshotShowsLiveSwitch | src/roughtime/as_store.rs:68-76 | every stored snapshot agrees with its live switch on mode, failures and cooldown |
| TimeSynthesis.MajorityRangeHolds | src/time_synthesis.ts:280-295 | any range that holds more than half of the readings holds the synthesised time, for every number of readings |
| TimeSynthesis.SynthesisMeans | src/time_synthesis.ts:280-295 | two readings give half their sum rounded toward zero, the mean uncertainty and the smaller stratum; any other number give time, uncertainty and stratum of the one reading that exactly half of all, rounded down, precede |
| TimeSynthesis.MiddleHalves | src/time_synthesis.ts:290-295 | at most half of the readings are earlier than that one, and more than half are no later |
| Median.SortPlaces | src/time_synthesis.ts:280-280 | the sort is stable: each reading goes to the place given by the number of earlier ones and of equal ones that arrived before it |
| TimeSynthesis.ArrivedMeans | src/time_synthesis.ts:257-263 | every fulfilled answer is collected once, behind the answers of the sources before it |
| TimeSynthesis.FaultyMinorityHarmless | src/time_synthesis.ts:280-295 | with fewer than half of the readings arbitrary, the result lies between the least and greatest honest one |
| TimeSynthesis.HonestErrorBounds | src/time_synthesis.ts:323-342 | if the honest majority is within u of the true time, so is the result |
| TimeSynthesis.TimeSynthesis.Synthesize | src/time_synthesis.ts:252-305 | fails exactly when every source does; otherwise it returns the average of two or the middle reading, with the share of sources that answered, and the time cannot leave any range holding most answers |
| TimeSynthesis.TimeSynthesis.GenerateProofOfTime | src/time_synthesis.ts:310-373 | issues a PoT that states the average of two or the middle reading, the share of answers, every reading with its stratum at its place in time, and an expiry 60 s after issue; fails exactly when no source answered or the PoT is not acceptable to this instance, whose nonce it spends |
| TimeSynthesis.IssuedMeans | src/time_synthesis.ts:344-364 | what the PoT put together from the readings says, field by field |
| TimeSynthesis.TimeSynthesis.VerifyProofOfTime | src/time_synthesis.ts:397-458 | accepts exactly when there are readings and confidence, the expiry is not past, no entry with the nonce outlasts the cleanup (5,000 entries, 300 s), and every reading is within its own uncertainty or within 10, 25 or 50 ms by the lowest stratum; the nonce is spent before the readings are compared |
| TimeSynthesis.NearExactly | src/time_synthesis.ts:391-457 | the divergence check of one reading, by distances: its uncertainty rounded to a nanosecond, 10 ms, or 25 or 50 ms when nothing states a stratum below 2 or 3 |
| TimeSynthesis.TimeSynthesis.CheckNonce | src/time_synthesis.ts:418-434 | cleaning, lookup and eviction in place are the specified check, and the answer is whether the nonce was unknown |
| NonceCache.CheckKeepsSound | src/time_synthesis.ts:418-434 | on a clock that does not go back the cache is always a contiguous end of everything recorded, at most 10,000 long, and lacks only entries over 300 s old or 10,000 recordings back |
| NonceCache.RecordedIsFound | src/time_synthesis.ts:420-428 | so a nonce younger than both bounds is found |
| NonceCache.FoundIfKnown | src/time_synthesis.ts:418-428 | the look-up after the cleanup finds a nonce exactly when an entry has it that is at most 300 s old or stands in a cache of at most 5,000 |
| NonceCache.UnexpiredIsSuffix | src/time_synthesis.ts:419-424 | the cleanup pass removes a prefix, so it keeps the insertion order's suffix |
| TimeSynthesis.RunIsSound | src/time_synthesis.ts:397-434 | the cache invariant holds after every run of verifications |
| TimeSynthesis.NonceReturnsLate | src/time_synthesis.ts:411-434 | over any run a nonce is recorded twice only more than 300 s or at least 10,000 recordings apart |
| TimeSynthesis.NoReplay | src/time_synthesis.ts:411-434 | a PoT that expires within 300 s of its nonce's recording, less the lag between the later call's two clock readings, is not accepted again within fewer than 10,000 recordings |
| TimeSynthesis.IssuedIsSpent | src/time_synthesis.ts:353-370 | the instance that issued a PoT never accepts it again within those recordings, while the later call's two clock readings are at most four minutes apart |
| NonceReplay.ReplayAfterEviction | src/time_synthesis.ts:429-434 | the count is exact: a run in which a long-lived PoT is accepted again after 10,000 other recordings |
| NonceReplay.ReplayAfterExpiry | src/time_synthesis.ts:420-424 | so is the time: a run in which it is accepted again a millisecond after the 300 s |
| NonceReplay.ReplayInTheLag | src/time_synthesis.ts:412-424 | and the lag counts: a run in which a PoT that expires with the 300 s is accepted again because its expiry and the cache are looked at one millisecond apart |
| NonceReplay.BurstFills | src/time_synthesis.ts:418-434 | any n new nonces presented at one moment are all recorded, and the cache holds the last 10,000 of them |
| RoughtimeChain.NonceChainMeaning | src/roughtime/chain.rs:20-28 | success means every nonce is the hash of the reply and blind before it; failure names a place exactly when it is the first where it is not |
| RoughtimeChain.CausalMeaning | src/roughtime/chain.rs:30-39 | success means no midpoint less its radius is above the next midpoint plus its radius, saturation or not; failure names a place exactly when it is the first where one is |
| RoughtimeChain.SpreadMeaning | src/roughtime/chain.rs:41-49 | success means every two midpoints are at most two seconds apart; failure reports the greatest distance |
| RoughtimeChain.BuildMeans | src/roughtime/chain.rs:63-72 | a chain is built exactly from three or more attestations that are linked, ordered and within two seconds, and carries the digest of its own reports; each error is returned exactly when its condition is the first to fail |
| RoughtimeChain.BuildUncheckedMeans | src/roughtime/chain.rs:75-83 | the same without the link |
| RoughtimeChain.IntervalMeans | src/roughtime/types.rs:24-27 | the u64 instants of an interval are those within the radius of the midpoint |
| RoughtimeChain.SpreadOrdersExactly | src/roughtime/chain.rs:30-49 | for given radii, the spread check implies the ordering check at all midpoints exactly when every two neighbouring radii sum to at least 2 |
| RoughtimeChain.SpreadAgreesExactly | src/roughtime/chain.rs:30-49 | for given radii, the spread check puts one instant into all intervals at all midpoints exactly when every two radii sum to at least 2 |
| RoughtimeChain.CommonInstant | src/roughtime/types.rs:24-27 | a chain's intervals share an instant exactly when every two of them, neighbours or not, are in order |
| RoughtimeChain.NarrowPairSplits | src/roughtime/chain.rs:30-49 | for every two radii that sum to less, midpoints that pass the spread check with one interval wholly after the other |
| RoughtimeChain.SpreadImpliesAgreement | src/roughtime/chain.rs:30-49 | so with every radius at least 1 a small spread orders all pairs and all intervals share an instant |
| ChainTime.MedianWraps | src/roughtime/types.rs:48-50 | the even-length average lies between the two middle midpoints exactly when their sum is below 2^64 |
| ChainTime.MajorityDecidesExactly | src/roughtime/types.rs:45-55 | every range that holds most midpoints holds the synthesised time exactly when the length is odd or the two middle midpoints sum to less than 2^64 |
| ChainTime.SmallMidpsFit | src/roughtime/types.rs:45-55 | midpoints below 2^63 always meet that condition |
| ChainTime.FaultyMinorityHarmless | src/roughtime/types.rs:45-55 | under it, with fewer than half of the attestations arbitrary, the time lies between the least and greatest honest midpoint |
| ChainTime.HonestErrorBounds | src/roughtime/types.rs:45-55 | and if the honest majority is within u seconds of the true time, so is the result |
| ChainTime.TimeMeans | src/roughtime/types.rs:45-55 | the synthesised time is the middle of any ascending arrangement of the midpoints, or the average of the two middle ones with their sum cut to 64 bits, and comes with the largest radius |
| ChainTime.VerdictMeans | src/roughtime/chain.rs:85-107 | the check answers a median exactly when the digest is the hash of the reports, neighbours are ordered, midpoints within two seconds, and the whole-second time within the largest radius plus one of that median; each error exactly when its condition is the first to fail, and a panic exactly on an empty chain |
| ChainTime.NanosecondsMean | src/roughtime/async_client.rs:145-148 | the timestamp is a thousand million times the median, cut to 64 bits |
| ChainTime.AcceptedPotIsClose | src/roughtime/chain.rs:85-107 | an accepted PoT time is within the largest radius plus 3 s of every attestation's midpoint exactly when the chain's median did not wrap (odd length or middle sum below 2^64) |
| ChainTime.BuiltChainMatchesItsTime | src/roughtime/async_client.rs:145-148 | a chain built without error accepts the time synthesised from it exactly while its nanoseconds are below 2^64 |
| RoughtimeChain.ComputeChainDigest | src/roughtime/chain.rs:51-61 | feeding the hasher step by step is hashing the whole transcript |
| RoughtimeChain.CollectedIsChained | src/roughtime/async_client.rs:110-132 | whatever pattern of servers fails, the collected list holds every usable reply exactly once, in order, and its nonces are linked from the random seed on |
| RoughtimeChain.ClientResultIsChained | src/roughtime/client.rs:94-137 | a chain is returned exactly when enough replies are usable, three at least, and the attestations made of them, every one once, in order and linked from the seed, are ordered and within two seconds; a nonce mismatch is never reported, and too few servers exactly when too few replies were usable |
| RoughtimeChain.BuildRoughtimeChainAsync | src/roughtime/async_client.rs:110-142 | the loop, though it ends in the unchecked builder, returns for every pattern of replies what the checked one would, errors included |
| RoughtimeChain.BuildRoughtimeChain | src/roughtime/client.rs:88-137 | the loop with the inline derivation collects the same linked list, for any minimum |
| RoughtimeChain.UncheckedIsEnough | src/roughtime/chain.rs:63-83 | on linked lists both builders agree, errors included |
| RoughtimeChain.NoNonceMismatch | src/roughtime/chain.rs:63-72 | building a linked list never fails for its nonces |
| PotRecord.RecordFieldsAgree | src/pot_frame.ts:52-131 | every field Rust puts into a record is what the TypeScript decoder and both Rust header readers get out of its 175-byte frame |
| PotRecord.RecordParsesBack | src/roughtime/no_std_verify.rs:90-113 | the Rust header and timestamp readers invert the Rust payload builder |
| PotRecord.RecordBytes | src/roughtime/grg_bridge.rs:44-66 | the record Rust puts together has each field at its byte, numbers most significant byte first |
| PotRecord.RustReadersMean | src/roughtime/no_std_verify.rs:90-113 | the readers refuse exactly what is too short, and read nibbles, flag bit, timestamp and frame parts where they stand |
| PotRecord.DecodePotFrame | src/pot_frame.ts:76-131 | exactly the frames of 175 bytes are decoded, and every field is the number or the bytes at its place in the frame |
| PotRecord.SignedBytesAgree | src/roughtime/pot_crypto.rs:37-56 | the 79 bytes Rust signs are those TypeScript verifies and those both languages bind the session to |
| PotRecord.ExtendedFrameRoundTrip | src/roughtime/quic_transport.rs:91-126 | a built frame survives its bytes, verifies under its secret, and is the TypeScript frame of its record |
| PotRecord.BindingKeyBinds | src/roughtime/quic_transport.rs:49-77 | Rust accepts a key built for one record on another exactly when their signed parts are equal or two explicit HMAC inputs collide |
| PotRecord.BindingKeyBytes | src/roughtime/quic_transport.rs:49-66 | the key for a 79-byte signed part is the HMAC of EXPORTER-tttps-pot-binding, a zero byte, 79 in four bytes, and the part |
| PotRecord.PayloadBinds | src/roughtime/grg_bridge.rs:44-66 | two payloads are equal exactly when all fields are, version and tier by their low four bits |
| PotRecord.GrgInputBinds | src/roughtime/grg_bridge.rs:26-32 | equal GRG inputs have equal payloads and digests, even where the length field wraps |
| PotRecord.GrgInputBytes | src/roughtime/grg_bridge.rs:26-40 | length in four bytes, payload, digest, end to end |
| PotRecord.ChainInputIsNotBasic | src/roughtime/grg_bridge.rs:26-40 | an input with a chain is never an input without one |
| PotRecord.DigestBinds | src/roughtime/chain.rs:51-61 | equal chain digests mean the same reports in order, or an explicit SHA-256 collision |
| PotRecord.TranscriptBytes | src/roughtime/chain.rs:51-61 | what is hashed is the count in one byte and then 76 bytes an attestation: midpoint, radius, root, nonce |
| PotRecord.GrgInputBindsChain | src/roughtime/grg_bridge.rs:70-82 | over chains either builder returned, equal GRG inputs mean the same PoT payload over the same reports, or an explicit collision |
| PotRecord.QuicRoundTrip | src/roughtime/quic_transport.rs:139-166 | a QUIC frame survives the wire exactly when its payload is below 2^32 bytes |
| PotRecord.QuicBytes | src/roughtime/quic_transport.rs:139-156 | stream type 0x74, length, flag and payload, each at its place |
| PotRecord.QuicReads | src/roughtime/quic_transport.rs:158-166 | a frame is read exactly when it holds the payload it announces |
| PotVerifier.AddRefines | src/pot_verifier.ts:177-190 | the lazily pruned, occasionally swept map answers as the full list of acceptances would |
| PotVerifier.RunRefines | src/pot_verifier.ts:169-199 | and it does so after every run of verifications |
| PotVerifier.AcceptancesApart | src/pot_verifier.ts:137-142 | over any run two acceptances of a nonce are more than ttlMs apart |
| PotVerifier.NeverAcceptedTwice | src/pot_verifier.ts:122-144 | a frame stamped no further ahead than ttlMs less its tier's tolerance is never accepted twice |
| PotVerifier.SecondSubmission | src/pot_verifier.ts:122-144 | the bound is exact: a second submission is accepted exactly when it passes the screen after the ttl has run out |
| PotVerifier.RustFrameScreens | src/pot_verifier.ts:72-135 | a frame issued by Rust passes the checks before the nonce exactly when Rust's HMAC key equals the session's exported key and it is recent enough; a key mismatch and lateness are each reported exactly when they are the cause |
| PotVerifier.ScreenMeans | src/pot_verifier.ts:72-135 | the checks before the nonce pass exactly a 175-byte frame of version 1 whose key is exported for bytes 32 to 111, whose signature over them verifies, and which is no older than 60 s, 2 s, 12 s or 100 ms by tier; each error is reported exactly when its condition is the first to fail |
| PotVerifier.PotVerifier.Verify | src/pot_verifier.ts:72-145 | accepts exactly the frames that meet those conditions and whose nonce no acceptance in force has used, records that acceptance, and otherwise reports the first condition to fail and consumes no nonce |
| PotVerifier.MemoryNonceCache.Has | src/pot_verifier.ts:177-185 | answers whether an unexpired entry exists, deleting an expired one |
| PotVerifier.MemoryNonceCache.Add | src/pot_verifier.ts:187-191 | sweeps only above 10,000 entries, then stores the expiry |
| Float32.SurvivesExactly | src/time_synthesis.ts:520-523 | a number in the finite range survives a float32 write and read exactly when it is the value of a 32-bit pattern |
| Float32.TripOf100_1 | src/time_synthesis.ts:520-536 | every codec that rounds to nearest returns 100.1 as 100.09999847412109375 |
| PotBinary.RoundTrip | src/time_synthesis.ts:507-583 | decoding an encoded PoT, with any bytes after it, gives the PoT back in single precision, without the strata of its readings, and with each name as the text of as many UTF-8 bytes as the name has UTF-16 units |
| PotBinary.HeaderBytes | src/time_synthesis.ts:507-530 | the header has every number, count and the nonce at its byte, and the whole takes the computed size |
| PotBinary.ReadingBytes | src/time_synthesis.ts:532-537 | each reading stands behind the header and the readings before it: length, as many bytes of the name, time, uncertainty |
| PotBinary.DecodeAccepts | src/time_synthesis.ts:558-583 | decoding throws exactly when the header, the nonce or one of the announced readings runs past the end |
| PotBinary.UnchangedExactly | src/time_synthesis.ts:507-583 | it comes back unchanged exactly when no reading states a stratum, all its floats are single-precision values, and each name is what that many of its bytes read as |
| PotBinary.AsciiNameSurvives | src/time_synthesis.ts:533-534 | an ASCII name comes back as it was |
| PotBinary.PutName | src/time_synthesis.ts:534-534 | a name longer in bytes than in units spills over its slot, and only the bytes in the slot outlast the write |
| PotBinary.TwoOfThreeIsRounded | src/time_synthesis.ts:360-360 | a PoT that two of three sources answered never comes back unchanged: its confidence 2/3 is no single-precision value |
| PotBinary.SerializeToBinary | src/time_synthesis.ts:507-540 | the writes into a buffer of the computed size make the encoding, or throw exactly when a value does not fit its field |
| PotBinary.SerializeReadings | src/time_synthesis.ts:532-537 | the loop writes the readings end to end behind what is there |
| PotBinary.DeserializeFromBinary | src/time_synthesis.ts:558-583 | the offset moving through header and readings computes the decoding, and throws exactly where a read passes the end |
| PotDivergence.TightensExactly | src/time_synthesis.ts:391-457 | a PoT that passes the divergence check passes it after decoding, at all 64-bit timestamps, exactly when every reading's own tolerance survives the rounding or the floor of the PoT's own stratum makes up for it |
| PotDivergence.RoundingTightens | src/time_synthesis.ts:436-456 | the condition can fail: a PoT with uncertainty 100.1 that passes before encoding and fails after |
| PotDivergence.RepresentableSurvives | src/time_synthesis.ts:436-456 | it holds when the uncertainties are single-precision values |
| PotDivergence.LoosensExactly | src/time_synthesis.ts:391-457 | conversely a PoT that passes after decoding passed before, at all 64-bit timestamps, exactly when no reading's limit has grown |
| PotDivergence.LostStrataLoosen | src/time_synthesis.ts:401-409 | where a stratum lowered the floor, any reading less uncertain than the floor of the PoT's own stratum is let through at timestamps that were refused |
| FiloQueue.NothingLost | src/roughtime/filo_queue.rs:65-107 | at every point of every run, accepted pushes are pops, drains and contents together, as multisets |
| FiloQueue.FiloGrgQueue.Push | src/roughtime/filo_queue.rs:65-78 | refuses exactly a full queue's oldest-or-older entry and otherwise adds it, over capacity if need be |
| FiloQueue.FiloGrgQueue.OldestTime | src/roughtime/filo_queue.rs:70-70 | finds the least timestamp, 0 for an empty heap |
| FiloQueue.FiloGrgQueue.PopNewest | src/roughtime/filo_queue.rs:81-83 | removes and returns an entry none is newer than; nothing only from an empty queue |
| FiloQueue.FiloGrgQueue.DrainNewerThan | src/roughtime/filo_queue.rs:93-104 | returns exactly the entries at or after the cutoff, newest first, and leaves exactly the others |
| SwapStats.DayIsItsHours | subgraph/src/mapping.ts:46-97 | each day's swaps and turbo swaps are those of its 24 hours |
| SwapStats.DailyAdvances | subgraph/src/mapping.ts:46-75 | changing one day's record keeps every stored day equal to the aggregate of the log |
| SwapStats.HourlyAdvances | subgraph/src/mapping.ts:77-97 | likewise for hours |
| SwapStats.Store.HandleSwapVerified | subgraph/src/mapping.ts:25-98 | after every event all stored records are the aggregates of the events handled; its day and hour take in one swap, counted as turbo or full, with its fee and the ratio brought up to date, and no other record changes |
| SwapStats.Store.StoredDayAddsUp | subgraph/src/mapping.ts:46-97 | each stored day counts the swaps whose time lies in its 86,400 seconds, and the turbo ones; count by count it is the sum of its 24 stored hours, its modes make its total, its ratio is the share of turbo, and its fees are those of the events |
| SwapStats.Store.StoredHourCounts | subgraph/src/mapping.ts:77-97 | an hour is stored exactly when a swap lies in its 3,600 seconds, and counts them and the turbo ones |
| SwapStats.Store.StoredWhenSeen | subgraph/src/mapping.ts:46-75 | a day is stored exactly when a swap lies in it |

## Left out

- Sockets, DNS, HTTPS, timers and API fetches: a source is an answer or a failure, a clock reading an input.
- SHA-2, HMAC, Ed25519, Keccak, HMAC Gate 1, GRG and the TLS exporter: parameters; only "an honest signature verifies" is used. A socket that is not TLS makes the exporter throw; sessions here are TLS.
- A capacity bound for the FILO queue: the code has none. `BinaryHeap` is a multiset with a maximum, the choice among equal timestamps left open.
- TimeSynthesis.NoReplay: also bounds the time between the two clock readings of one call, and ends at `close()`, which forgets all nonces.
- TimeSynthesis.IssuedIsSpent: likewise.
- PotVerifier.NeverAcceptedTwice: likewise counts the lag between the caller's time and the cache's own reading.
- RoughtimeWire.ClientsReadTheSame: one direction; the Rust client checks no signature and defaults missing fields, so it reads packets TypeScript refuses.
- PotBinary.RoundTrip: text is modelled by its UTF-8 bytes and length; the nonce is valid UTF-8, which `toString` gives back.
- Double-precision arithmetic: uncertainties, confidences and `BigDecimal` ratios are reals; only the rounding to single precision in the binary form is modelled, for finite values. Match rates are compared as exact fractions, which decides the two thresholds alike.
- Overflow panics of debug builds: `fail_count`, the even median and `chain_to_timestamp_ns` wrap as release builds do. `synthesise_timestamp` on an empty chain is a panic outcome.
- HTTPS uncertainty as a bound on true time: not a property of the code, whose 500 ms does not cover a truncated second.
- Which check a refused Roughtime response is reported by: `Validate` has the checks in the code's order, the results say when it accepts and with what time.
- Error texts, logging and the `frame` and `latencyMs` fields of results.
- Tier names that collide with members of `Object.prototype` in the tolerance table lookup.
- Switches changed through the reference `get_or_create` hands out, outside `verify_and_persist`; flushing the store to disk and loading it.
- JSON forms of the switch and of PoTs, the on-chain hash, `check_recency`, fee discounts, `NTPSource`, `http_client.ts`, `VerificationPipeline`, PoT-Ack frames, `NonceStore`.
- Pool registry, trust store, OSNMA, tier tables, DER parsing, EVM connector, Uniswap hook, UI, plugins and deployment: they would add only easy members.
- `handlePoTAnchored` and the per-swap entity of the subgraph: plain field copies.
