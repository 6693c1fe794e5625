# ratecat: verified model

ratecat is a clustered rate limiter. Clients ask any node whether an event may happen; the node that
owns the resource decides with a token bucket, the others forward. Which node owns what is kept in a
replicated store, changed by log entries and saved in snapshots. Commands, log entries and snapshots
travel as Protocol Buffers messages, commands inside length-prefixed frames.

| file | part |
|---|---|
| `Messages.dfy` | the protocol messages, over any view of floating-point numbers |
| `TokenBuckets.dfy`, `LeakyBuckets.dfy` | the limiters as objects, the functions they compute, and bounds over whole runs |
| `Rates.dfy` | the bounds of both in the configured rate |
| `Arithmetic.dfy` | facts about products, quotients and remainders |
| `Varints.dfy`, `Wire.dfy` | varints, fields, skipping and the generic parsing loop |
| `Codec.dfy`, `Marshal.dfy` | each message's encoding, sizes, the backward-writing marshallers, round trips |
| `Timestamps.dfy` | times and timestamps |
| `ManagerState.dfy` | what log entries, snapshots and evacuation do, on values |
| `ResourceManagers.dfy` | the same with shared, mutable objects, proved equal to it |
| `Snapshots.dfy` | snapshots and log entries through the bytes and back |
| `Routing.dfy`, `Clients.dfy` | who decides a request, and the redirected client |
| `ClusterBounds.dfy`, `LaggingReplicas.dfy` | how much a cluster admits, with replicas in step and with replicas that lag |
| `Frames.dfy` | framing and the loop over pipelined requests |
| `RpsHistories.dfy`, `HandOff.dfy`, `LoadChoice.dfy` | request statistics, applied-entry hand-off, load choice |

`dafny verify dfyconfig.toml` checks everything.

Code that changes state is a class or a loop here too. Its contract names the function of the old state
that it computes (`FillAt`, `Parse`, `Put`, `Route`, `Consume`, ...), and the theorems are about these
functions over all inputs, runs and interleavings.

Assumptions: times are integer nanoseconds; token counts are reals; a rate is at least 1, below
which creating a bucket divides by zero. Clock readings, the lightest node's id, random
draws, unreachable peers and the order a map is walked in are parameters or left open. A byte slice is
shorter than 2^63.

Where the code does something its names or comments do not suggest, the model follows the code:

- `updateResourceNodeId` overwrites the node id before it looks up the source index with it. The index
  entry of the old node stays, the destination gets the name and loses it again. So what
  has been moved to a node is not found when that node is evacuated (`SecondEvacuationIsStuck`), while
  evacuating the first node again moves it on from wherever it is (`SameSourceAgain`).
- `putResource` leaves an older node's index entry in place.
- Apply dereferences a missing resource, and a Put entry without request statistics: outcome
  `Panicked` (`ApplyPanicsIff`).
- The period of a rate is cut to whole nanoseconds, so a rate that does not divide a second is exceeded
  (`KeepsRateIffDivides`, `LeaksInRateIffDivides`).
- A response of more than 4096 bytes is written and then refused by the reader (`AnswersReceivedIffShort`).
- A reservation beyond minus the burst is clamped, which forgives the rest of the debt.
- The leaky bucket is not drained while its count is not positive, so a later drain uses stale time.
- A oneof limiter that occurs twice on the wire is replaced, not merged (`LimiterReplaced`,
  `ReplacingIsMergingIff`). Enums that are negative survive.
- A skipped group may end with the end tag of another number (`NumberedIffTagsMatch`).
- The error branches of `OnTraffic` compare a command error with unrelated sentinels and are never taken;
  a request that cannot be decoded is counted and its missing header dereferenced. The loop then ends as
  not drained. This includes a frame that has not arrived completely.
- A client call that fails answers true together with the error.
- A registration answered by the leader for itself keeps an older binding to another node
  (`RegisterBindsIff`).

## Model

| member | source | states |
|---|---|---|
| TokenBuckets.TokenBucket.constructor | internal/limit/token_bucket.go:86-97 | a new bucket is that of `NewBucket`: full, its next fill one period ahead, and the period as in `NewBucketIs` |
| TokenBuckets.NewBucketIs | internal/limit/token_bucket.go:86-97 | a new bucket is full, and its period p is the whole number of nanoseconds with p * rate <= 10^9 < (p + 1) * rate, for the rate cut to a whole number |
| TokenBuckets.TokenBucket.FromState | internal/limit/token_bucket.go:49-64 | a bucket restored from a message has exactly the fields of the message |
| TokenBuckets.TokenBucket.Fill | internal/limit/token_bucket.go:135-147 | the new state is that of the lazy refill `FillAt`, which `FillIs` states as an equality |
| TokenBuckets.TokenBucket.Allow | internal/limit/token_bucket.go:105-116 | new state and answer are those of `AllowAt`; a bucket in good order stays so |
| TokenBuckets.TokenBucket.Take | internal/limit/token_bucket.go:118-133 | new state and delay are those of `TakeAt`; a bucket in good order stays so |
| TokenBuckets.FillIs | internal/limit/token_bucket.go:135-147 | a refill changes nothing up to the next fill; after it, it adds exactly the time since the last fill to the credit, up to a full burst, and loses no fraction of a token |
| TokenBuckets.TakeIs | internal/limit/token_bucket.go:118-133 | the tokens a reservation leaves, minus the burst exactly if it is cut off, and its delay to the nanosecond |
| TokenBuckets.RunKeepsWellFormed | internal/limit/token_bucket.go:105-147 | after any sequence of Allow and Take calls, whatever the clock says, the tokens lie between minus and plus the burst, the next fill is one period after the last, and the configuration is unchanged |
| TokenBuckets.AdmittedPaidByCredit | internal/limit/token_bucket.go:105-147 | conservation: what a run admits is paid for by the tokens it started with and the time refilled since |
| TokenBuckets.WindowBound | internal/limit/token_bucket.go:105-116 | sliding window: from any reachable state, for calls in any clock order, mixed with Take calls, at most burst + 1 + elapsed / fillPeriod events are admitted |
| TokenBuckets.WindowSlackIsNeeded | internal/limit/token_bucket.go:135-147 | every full bucket admits its burst and one more within a nanosecond, which exceeds burst + elapsed / fillPeriod exactly if the period is longer than that |
| TokenBuckets.AdmitsIffRefilled | internal/limit/token_bucket.go:105-147 | exactly when a request is admitted, from any state in debt or not: tokens before the next fill, elapsed time against the missing tokens after it |
| TokenBuckets.EnoughWaitingAdmits | internal/limit/token_bucket.go:105-147 | no starvation: from any state, the deepest debt included, a request up to the burst is admitted after the periods of its tokens and of one burst |
| TokenBuckets.RunConserves | internal/limit/token_bucket.go:105-147 | conservation as an equality: a run whose refills and debts are not cut off leaves exactly the credit it found and all the time refilled, less what it handed out |
| TokenBuckets.AdmitsIffEarned | internal/limit/token_bucket.go:105-147 | after any such run a request late enough to refill is admitted exactly if the starting credit and the whole elapsed time cover it and all that was handed out before |
| TokenBuckets.RunLeavesCredit | internal/limit/token_bucket.go:105-147 | whatever is cut off, a run leaves no less than the smaller of a full burst and all there was to have, less what it handed out |
| TokenBuckets.EarnedIsAdmitted | internal/limit/token_bucket.go:105-147 | from any state, after any run, a request is admitted that a burst covers together with what was handed out since, as soon as the time has earned as much |
| TokenBuckets.ReadyPaidByCredit | internal/limit/token_bucket.go:118-147 | events promised for a time are paid for by credit and time up to then, while no debt is cut off |
| TokenBuckets.PacingBound | internal/limit/token_bucket.go:118-147 | Take pacing: from construction, in clock order and without the clamp, the events whose delay has passed by T are at most burst + (T - t0) / fillPeriod, for every T |
| TokenBuckets.DelayBounded | internal/limit/token_bucket.go:118-133 | with or without the clamp no delay is negative or longer than burst * fillPeriod |
| TokenBuckets.TakeHonestIff | internal/limit/token_bucket.go:118-133 | on any bucket: the debt is kept in full exactly up to the tokens and one burst, and the delay is as long as the missing tokens take, to the nanosecond, exactly unless the clamp forgives a nanosecond's worth or more |
| TokenBuckets.FullTakeHonestIffTwiceBurst | internal/limit/token_bucket.go:123-130 | on a full bucket a reservation is delayed for as long as its events cost exactly if it asks for at most twice the burst |
| TokenBuckets.RunConcat | internal/limit/token_bucket.go:105-147 | a run can be cut anywhere: states compose and admitted events add up |
| LeakyBuckets.LeakyBucket.constructor | internal/limit/leaky_bucket.go:19-31 | a new leaky bucket is empty, with the whole-number drain period of its rate; it is in good order exactly if the rate is at most one drop per nanosecond |
| LeakyBuckets.NewBucketIs | internal/limit/leaky_bucket.go:19-31 | a new bucket is empty, and its period p is the whole number of nanoseconds with p * rate <= 10^9 < (p + 1) * rate, for the rate cut to a whole number |
| LeakyBuckets.LeakyBucket.Drain | internal/limit/leaky_bucket.go:74-93 | the new state is that of `DrainAt`: only a positive count past its next drain leaks, whole drips at a time, clamped below |
| LeakyBuckets.LeakyBucket.Allow | internal/limit/leaky_bucket.go:39-51 | new state and answer are those of `AllowAt`; drops stay within plus and minus the capability and the next drain one period after the last |
| LeakyBuckets.LeakyBucket.Take | internal/limit/leaky_bucket.go:53-72 | new state and delay or overflow are those of `TakeAt`; the bucket stays in good order |
| LeakyBuckets.DrainIs | internal/limit/leaky_bucket.go:74-93 | a drain leaks exactly one drop for each whole period, down to minus the capability, and accounts for these periods only; before the next drain or while the count is not positive it does nothing |
| LeakyBuckets.TakeIs | internal/limit/leaky_bucket.go:53-72 | Take accepts exactly what Allow accepts and leaves the same bucket; the delay is what the drops found take to leak, an overflow reports it unclamped |
| LeakyBuckets.DrainKeepsWellFormed | internal/limit/leaky_bucket.go:74-93 | a drain keeps the range and the schedule, and never leaks more drops than the time it accounts for |
| LeakyBuckets.AcceptedPaidByDrain | internal/limit/leaky_bucket.go:39-93 | conservation: what a run accepts is what it leaves in the bucket plus what has leaked meanwhile |
| LeakyBuckets.AcceptedSinceCreation | internal/limit/leaky_bucket.go:39-93 | since creation at most capability + elapsed / drainPeriod events are accepted, for calls in any clock order |
| LeakyBuckets.WindowBound | internal/limit/leaky_bucket.go:39-93 | over any window from any reachable state at most 4 * capability + 1 + elapsed / drainPeriod events are accepted |
| LeakyBuckets.RestedAcceptsFour | internal/limit/leaky_bucket.go:74-93 | every bucket drained to the bottom and rested long enough accepts four capabilities in one instant |
| LeakyBuckets.FourCapabilitiesAtOnce | internal/limit/leaky_bucket.go:39-93 | every new bucket with room for a drop gets there by two calls: a count that is not positive rests without being drained |
| LeakyBuckets.AcceptsIffDrained | internal/limit/leaky_bucket.go:39-93 | exactly when a request is accepted, from any state: without a drain if it fits, after one if twice the capability holds it and the drops in its way have had time to leak |
| LeakyBuckets.EnoughWaitingAccepts | internal/limit/leaky_bucket.go:39-93 | no starvation: a request up to the capability is accepted once the drops in its way have leaked |
| LeakyBuckets.DelayBounded | internal/limit/leaky_bucket.go:53-72 | a delay handed out is never negative nor longer than a full bucket takes to leak |
| Rates.AdmittedInRate | internal/limit/token_bucket.go:86-147 | from construction a token bucket admits the burst and, over the elapsed time, the rate of whole periods |
| Rates.WindowInRate | internal/limit/token_bucket.go:86-147 | the same over any window of any later run, with one event more |
| Rates.PacingInRate | internal/limit/token_bucket.go:86-147 | the same for paced reservations without the clamp |
| Rates.KeepsRateIffDivides | internal/limit/token_bucket.go:86-147 | over all runs a token bucket keeps the configured rate itself exactly if its burst is at most one or the rate divides a second into whole nanoseconds |
| Rates.AcceptedInRate | internal/limit/leaky_bucket.go:19-93 | since creation a leaky bucket accepts the capability and, over the elapsed time, the rate of whole periods |
| Rates.LeaksInRateIffDivides | internal/limit/leaky_bucket.go:19-93 | over all runs a leaky bucket keeps the configured rate itself exactly if it has no capability or the rate divides a second into whole nanoseconds |
| Timestamps.TimeRoundTrip | internal/pbutil/timestamp.go:9-15 | every time comes back from its timestamp, whose nanoseconds are in the normal range |
| Timestamps.TimestampRoundTripIffNormal | internal/pbutil/timestamp.go:9-15 | a timestamp comes back from its time exactly if its nanoseconds are in the normal range |
| Varints.VarintRoundTrip | proto/ratecat_api_v1.pb.go:1953-1963 | every 64-bit value is decoded from its encoding at any position in any buffer, and the position ends right behind it |
| Varints.VarintFormat | proto/ratecat_api_v1.pb.go:1953-1963 | the encoding holds seven bits in every byte, the lowest first, the high bit on all bytes but the last, and no byte more than it takes |
| Varints.DecodesIff | proto/ratecat_api_v1.pb.go:4247-4263 | exactly which bytes are read as a varint, those that end within ten bytes, and the number they are read as |
| Varints.SovIsVarintLength | proto/ratecat_api_v1.pb.go:2291-2293 | the size formula (Len64(x or 1) + 6) / 7 is the number of bytes the encoder writes |
| Varints.EncodeVarintAt | proto/ratecat_api_v1.pb.go:1953-1963 | the loop fills exactly the bytes in front of the end with the encoding and touches no other |
| Varints.ReadVarint | proto/ratecat_api_v1.pb.go:3880-3906 | the reading loop, or-ing seven bits at a time into a field of any width, returns the low bits of the decoded value, or the error of the decoding; it ends on every input |
| Varints.DecodePrefix | proto/ratecat_api_v1.pb.go:4247-4263 | a varint depends on no byte behind its own |
| Varints.DecodeShift | proto/ratecat_api_v1.pb.go:4247-4263 | bytes in front of a varint move its position and change nothing else |
| Varints.PutLittleEndian | proto/ratecat_api_v1.pb.go:1864-1880 | a fixed word is written in little-endian order into its own bytes only |
| Varints.LittleEndianDigit | proto/ratecat_api_v1.pb.go:1864-1880 | byte k of a word holds its bits 8k to 8k + 7 |
| Varints.LittleEndianRoundTrip | proto/ratecat_api_v1.pb.go:3910-3920 | a word that fits is read back from its little-endian bytes |
| Wire.ConversionsInvert | proto/ratecat_api_v1.pb.go:1622-1676 | sign extension to 64 bits and truncation undo each other, negative enums included |
| Wire.SkipStepAt | proto/ratecat_api_v1.pb.go:4244-4321 | one turn of the skipping loop is `SkipStep` on every input, wrapping lengths included |
| Wire.SkipFieldAt | proto/ratecat_api_v1.pb.go:4244-4321 | the skipping loop ends on every byte sequence and computes `SkipField` |
| Wire.SkipClosesGroups | proto/ratecat_api_v1.pb.go:4299-4320 | the depth counter means the number of enclosing groups still to end |
| Wire.SkipIsRecursive | proto/ratecat_api_v1.pb.go:4244-4321 | the flat loop with a depth counter equals the recursive definition of balanced groups, in which any end tag closes the innermost group |
| Wire.NumberedIffTagsMatch | proto/ratecat_api_v1.pb.go:4244-4321 | the Encoding specification has a group end with its own number: exactly the fields that the loop skips and whose end tags match are skipped by it, and then to the same end |
| Wire.MismatchIsSkipped | proto/ratecat_api_v1.pb.go:4299-4303 | the loop skips a group ended by the tag of another number, which the specification does not |
| Wire.ReadFieldAt | proto/ratecat_api_v1.pb.go:3373-3460 | reading one field as the generated code does, tag checks, wire types, signed lengths and unknown fields, computes `ReadField` |
| Wire.ReadDelimitedAt | proto/ratecat_api_v1.pb.go:3430-3464 | a length that is negative, wraps or runs over the end gives an error and never an index outside |
| Wire.ReadUnknownAt | proto/ratecat_api_v1.pb.go:3575-3590 | an unknown field is skipped from its tag on, with the same checks |
| Wire.Unmarshal | proto/ratecat_api_v1.pb.go:3373-3599 | the outer loop of every generated parser ends on every input, stays inside the buffer, succeeds only at its end and computes `Parse` |
| Wire.ParseConcat | proto/ratecat_api_v1.pb.go:3373-3599 | merge homomorphism: parsing a + b agrees with parsing b into what a left, for every message type ("Last One Wins", Protocol Buffers Encoding) |
| Wire.UnknownFieldIgnored | proto/ratecat_api_v1.pb.go:3575-3590 | a well-formed unknown field between any two fields changes nothing |
| Wire.SkipsWhole | proto/ratecat_api_v1.pb.go:4244-4321 | every legal field is skipped whole: varints, words of four and eight bytes, runs of bytes, and groups of such fields to any depth |
| Wire.AnyUnknownIgnored | proto/ratecat_api_v1.pb.go:3575-3590 | any such field whose number the message does not know may stand between any two fields and changes nothing |
| Wire.TagsRefused | proto/ratecat_api_v1.pb.go:3373-3460 | a field without a number, an end tag without its group, a wire type that there is not and a known field of another wire type are refused |
| Codec.TimestampRoundTrip | proto/ratecat_api_v1.pb.go:1755-1779 | a nested timestamp comes back (the standard message modelled as two varints) |
| Codec.ReqPerSecEntryRoundTrip | proto/ratecat_api_v1.pb.go:3703-3799 | a history entry comes back |
| Codec.ReqPerSecRoundTrip | proto/ratecat_api_v1.pb.go:3600-3702 | any number of repeated history entries come back in order |
| Codec.StatisticsFields | proto/ratecat_api_v1.pb.go:3600-3799 | the tag bytes of the statistics, their entries and a timestamp, and what each sets |
| Codec.TokenBucketRoundTrip | proto/ratecat_api_v1.pb.go:3880-4061 | all six fields of a token bucket come back |
| Codec.TokenBucketOverlays | proto/ratecat_api_v1.pb.go:3880-4061 | parsed into a bucket that is not empty, an encoding overlays it: fields not written stay, timestamps are overlaid in turn |
| Codec.TokenBucketFields | proto/ratecat_api_v1.pb.go:3880-4061 | the tag bytes of the six fields of a token bucket, and that each sets its own field and no other |
| Codec.ResourceRoundTrip | proto/ratecat_api_v1.pb.go:3373-3599 | a resource comes back with its statistics, enum and oneof limiter |
| Codec.ResourceFields | proto/ratecat_api_v1.pb.go:3373-3599 | the tag bytes of the fields of a resource, and that each sets its own field and no other |
| Codec.LimiterReplaced | proto/ratecat_api_v1.pb.go:3544-3577 | a oneof limiter that occurs a second time replaces the first, whatever both hold |
| Codec.ReplacingIsMergingIff | proto/ratecat_api_v1.pb.go:3572-3576 | for any two buckets: replacing comes to the same as the merging of the Encoding specification exactly if the second writes every field that is not empty in the first |
| Codec.EntryRoundTrip | internal/cluster/pb/ratecat_cluster_v1.pb.go:764-921 | a log entry comes back through two levels of nesting |
| Codec.EntryFields | internal/cluster/pb/ratecat_cluster_v1.pb.go:764-1005 | the tag bytes of the fields of an entry and of a snapshot, and what each sets |
| Codec.NormalEntryIffCanonical | internal/cluster/pb/ratecat_cluster_v1.pb.go:552-587 | what the wire changes, exactly: negative zeros and an empty oneof wrapper, nothing else |
| Codec.SnapshotRoundTrip | internal/cluster/pb/ratecat_cluster_v1.pb.go:922-1005 | every snapshot comes back in its normal form, and unchanged exactly if no entry holds a negative zero or an empty oneof wrapper |
| Codec.CmdHeaderRoundTrip | proto/ratecat_api_v1.pb.go:2398-2479 | every command name comes back from its header |
| Codec.CmdErrorRoundTrip | proto/ratecat_api_v1.pb.go:2297-2397 | every error comes back, negative codes included |
| Codec.CommandFields | proto/ratecat_api_v1.pb.go:2297-2479 | the tag bytes of a command's header and of an error, and what each sets |
| Marshal.TokenBucketSize | proto/ratecat_api_v1.pb.go:2233-2261 | Size of a token bucket is the length of its encoding |
| Marshal.ReqPerSecSize | proto/ratecat_api_v1.pb.go:2184-2200 | Size of the statistics is the length of their encoding |
| Marshal.ResourceSize | proto/ratecat_api_v1.pb.go:2142-2182 | Size of a resource is the length of its encoding |
| Marshal.EntrySize | internal/cluster/pb/ratecat_cluster_v1.pb.go:695-716 | Size of an entry is the length of its encoding |
| Marshal.SnapshotSize | internal/cluster/pb/ratecat_cluster_v1.pb.go:718-731 | Size of a snapshot is the length of its encoding |
| Marshal.MarshalReqPerSecEntry | proto/ratecat_api_v1.pb.go:1755-1779 | writes the entry's encoding right in front of the index, nothing else, without underflow |
| Marshal.MarshalReqPerSec | proto/ratecat_api_v1.pb.go:1713-1738 | writes the histories last to first so that they stand first to last |
| Marshal.MarshalTokenBucket | proto/ratecat_api_v1.pb.go:1830-1882 | writes the bucket's encoding right in front of the index and nothing else |
| Marshal.MarshalLimiter | proto/ratecat_api_v1.pb.go:1682-1697 | writes the oneof wrapper, and nothing for an empty one |
| Marshal.MarshalResource | proto/ratecat_api_v1.pb.go:1619-1676 | writes the resource's encoding right in front of the index and nothing else |
| Marshal.MarshalEntry | internal/cluster/pb/ratecat_cluster_v1.pb.go:552-587 | writes the entry's encoding right in front of the index and nothing else |
| Marshal.MarshalEntries | internal/cluster/pb/ratecat_cluster_v1.pb.go:604-624 | writes the nested entries last to first, each with its length |
| Marshal.MarshalSnapshot | internal/cluster/pb/ratecat_cluster_v1.pb.go:589-624 | a buffer of exactly Size bytes is filled to its first byte with the snapshot's encoding |
| Marshal.MarshalEntryMessage | internal/cluster/pb/ratecat_cluster_v1.pb.go:537-587 | a buffer of exactly Size bytes is filled with the entry's encoding |
| Marshal.MarshalCmdHeader | proto/ratecat_api_v1.pb.go:1228-1256 | a buffer of exactly Size bytes is filled with the header's encoding |
| Marshal.WriteAndRead | internal/cluster/pb/ratecat_cluster_v1.pb.go:604-1005 | written backwards by the marshalling loops and read by the parsing loop, a snapshot comes back; unchanged exactly if it is canonical |
| ManagerState.ResourceMessageRoundTrip | internal/mgr/res.go:25-53 | a resource rebuilt from its message has the same node, limiter state and update time; the message is labelled as a token bucket and holds the bucket's own numbers and times |
| ManagerState.ApplyIsPerform | internal/mgr/res_mgr_fsm.go:37-60 | one entry does to the primary store what one plain map operation does |
| ManagerState.StoreIsMapFold | internal/mgr/res_mgr_fsm.go:15-60 | after any log the primary store is the fold of plain map operations; the index has no say in it |
| ManagerState.EntryTouchesItsName | internal/mgr/res_mgr_fsm.go:15-60 | what an entry does to the store by the number of its action, and that it touches no other name than its own |
| ManagerState.PutRemoveLogKeepsIndexComplete | internal/mgr/res_mgr.go:150-184 | after any log of Put and Remove entries every stored resource is listed under its own node |
| ManagerState.ListedAfter | internal/mgr/res_mgr.go:150-224 | exactly which names are listed where after a put, a removal and an update: nothing but the name itself is listed anew or taken off |
| ManagerState.UpdateKeepsIndexCompleteIffIdle | internal/mgr/res_mgr.go:200-224 | an update keeps the index complete exactly if it changes nothing: the overwritten node id is used for the source lookup |
| ManagerState.PutKeepsIndexExactIffInPlace | internal/mgr/res_mgr.go:150-156 | a put keeps an exact index exact exactly if the name is new or stays on its node: the entry of an older node is left behind |
| ManagerState.RemoveKeepsIndexExact | internal/mgr/res_mgr.go:175-184 | a removal keeps an exact index exact |
| ManagerState.UpdateKeepsIndexExactIffIdle | internal/mgr/res_mgr.go:200-224 | an update keeps an exact index exact exactly if it changes nothing |
| ManagerState.SnapshotRestores | internal/mgr/res_mgr_fsm.go:95-154 | a snapshot taken in any iteration order and restored into a fresh manager gives the same store and an index that agrees with it exactly |
| ManagerState.RestoresIffAllBuilt | internal/mgr/res_mgr_fsm.go:112-126 | a restore gets through exactly if a resource can be built from every entry |
| ManagerState.RestoreStops | internal/mgr/res_mgr_fsm.go:112-126 | the first bad entry ends a restore half-way and what it leaves is final |
| ManagerState.SnapshotPlusSuffix | internal/mgr/res_mgr_fsm.go:95-154 | snapshot plus remaining entries equals the full history, for every history of entries and served requests and every cut |
| ManagerState.ReplicasAgree | internal/mgr/res_mgr_fsm.go:15-60 | replicas with the same log agree on names, nodes, rates, bursts, periods and update times, whatever requests each has served in between |
| ManagerState.EvacuationIffListed | internal/mgr/res_mgr.go:267-306 | moving a node's resources loses none; it leaves none on the node exactly if all of them were listed under it, and leaves the resources of other nodes alone exactly if none of them was still listed under it, but for those already on the destination |
| ManagerState.EvacuationAfterPutRemove | internal/mgr/res_mgr.go:267-306 | after any log of Put and Remove entries a node is evacuated completely |
| ManagerState.SecondEvacuationIsStuck | internal/mgr/res_mgr.go:200-224 | what one evacuation has brought to a node, the next evacuation of that node does not find: it stays there |
| ManagerState.SameSourceAgain | internal/mgr/res_mgr.go:200-306 | evacuating the same node again moves on, from wherever it is by then, everything the first evacuation has moved away: an update never touches the old node's list |
| ResourceManagers.NewResourceFromPB | internal/mgr/res.go:25-36 | builds a fresh resource with the limiter state and the young statistics the message describes, or reports why it cannot |
| ResourceManagers.Resource.ToPB | internal/mgr/res.go:38-53 | the message of a resource, its limiter and its statistics |
| ResourceManagers.ResourceManager.constructor | internal/mgr/res_mgr.go:40-57 | a new manager is empty |
| ResourceManagers.ResourceManager.PutResource | internal/mgr/res_mgr.go:150-156 | the abstract contents are those of `Put`; the index shares the stored object; no two names share one |
| ResourceManagers.ResourceManager.RemoveResource | internal/mgr/res_mgr.go:175-184 | the abstract contents are those of `Remove`; sharing is kept |
| ResourceManagers.ResourceManager.UpdateResourceNodeId | internal/mgr/res_mgr.go:200-224 | changing the shared object in place has the effect of `Move` and no name but this one sees it |
| ResourceManagers.ResourceManager.Apply | internal/mgr/res_mgr_fsm.go:15-27 | from the bytes of an entry, decoding included, contents and outcome are those of `ApplyBytes`; undecodable bytes change nothing |
| ResourceManagers.ResourceManager.ApplyEntry | internal/mgr/res_mgr_fsm.go:22-60 | contents and outcome of the object-based Apply are those of `ManagerState.Apply` |
| ResourceManagers.ResourceManager.Restore | internal/mgr/res_mgr_fsm.go:95-129 | from the bytes of a snapshot, decoding included, contents and outcome are those of `RestoreBytes`; undecodable bytes change nothing |
| ResourceManagers.ResourceManager.RestoreEntries | internal/mgr/res_mgr_fsm.go:110-128 | contents and outcome of the restoring loop are those of `RestoreAll` on whatever was there |
| ResourceManagers.ResourceManager.Snapshot | internal/mgr/res_mgr_fsm.go:78-93 | the bytes of a snapshot of exactly the contents |
| ResourceManagers.ResourceManager.CreateSnapshotPB | internal/mgr/res_mgr_fsm.go:131-154 | one Put entry for each stored resource, in whatever order the map is walked, each with the resource's own statistics |
| ResourceManagers.CatchUp | internal/mgr/res_mgr_fsm.go:78-129 | the bytes of one manager's snapshot restored into a new one give fresh objects with the same names, nodes, limiter states and update times, and an exact index |
| ResourceManagers.ResourceManager.MoveNodeResources | internal/mgr/res_mgr.go:267-306 | nothing if ten answers all name the source; otherwise one update for each listed name towards an answer that differs from the source |
| ResourceManagers.ResourceManager.Allow | internal/cmd/cmd_allow.go:48-49 | the limiter of one resource is charged in place and no other resource changes |
| Snapshots.SnapshotThroughBytes | internal/mgr/res_mgr_fsm.go:78-129 | the whole way, to words, to bytes, back and restored, gives the same store and an exact index, for any faithful float representation |
| Snapshots.EntryThroughBytes | internal/mgr/res_mgr_fsm.go:15-60 | what a node applies from the bytes of an entry is what the sender meant |
| Routing.Servers.AllowPbCmd | internal/cmd/cmd_allow.go:21-50 | the recursive request, with a missing event count filled in as one and the reply's address rewritten, computes `Route` |
| Routing.OwnerTakesEvents | internal/cmd/cmd_allow.go:33-49 | the owner admits a request exactly if its refilled bucket has as many tokens as the request has events, takes exactly as many, and changes nothing else in the cluster |
| Routing.OwnerAdmitsIff | internal/cmd/cmd_allow.go:33-49 | in terms of the bucket as it was: the tokens before the next fill, the time since the last fill after it, never more than a burst |
| Routing.NoEventsIsOne | internal/cmd/cmd_allow.go:33-35 | whoever decides it, a request for no events is one for a single event |
| Routing.RefusedIff | internal/cmd/cmd_allow.go:21-46 | exactly which requests are refused and why: an empty name, a name not stored, a way that ends at an owner out of reach or without the name; a refusal charges nobody |
| Routing.OwnerDecides | internal/cmd/cmd_allow.go:26-49 | where nodes agree on the owner one forward is enough, only the owner is charged, once, and the reply carries its decision and says if it was redirected |
| Routing.NoReplyIffClosed | internal/cmd/cmd_allow.go:37-46 | exactly when a request finds no reply: when its node belongs to a set of nodes that only forward to each other; one forward fewer than there are nodes is enough to tell |
| Routing.RepliesWithinClusterOrNever | internal/cmd/cmd_allow.go:37-46 | a request is answered within one forward fewer than there are nodes, or never, with any number of hops |
| Routing.ReplyIsFinal | internal/cmd/cmd_allow.go:37-46 | more hops never change a reply |
| Routing.DisagreementNeverReplies | internal/cmd/cmd_allow.go:37-46 | two nodes that name each other as owner bounce a request for ever and charge nobody |
| Routing.SameLogAgrees | internal/mgr/res_mgr_fsm.go:37-60 | nodes that have applied the same log agree on the owner of every stored resource |
| ClusterBounds.ClusterBound | internal/cmd/cmd_allow.go:26-49 | all nodes together admit at most ownerships * (burst + 1) + elapsed / fillPeriod events for a name, over any run with requests anywhere and any log: puts, re-puts, removals, moves and other entries; burst is the largest and fillPeriod the shortest put |
| ClusterBounds.ClusterBoundFromNothing | internal/mgr/res_mgr_fsm.go:37-60 | from an empty cluster: one burst + 1 for each put of the name and each move to another node in the log, and the time |
| ClusterBounds.OwnershipsOfMoves | internal/mgr/res_mgr_fsm.go:56-57 | without puts and removals there are as many ownerships as moves, and one |
| ClusterBounds.ClusterBoundFromPut | internal/mgr/res_mgr_fsm.go:37-57 | from the entry that puts the resource, with only moves of it after that, at most (moves + 1) * (burst + 1) + elapsed / fillPeriod |
| LaggingReplicas.DeciderDecides | internal/cmd/cmd_allow.go:26-49 | whatever each replica says, the first node on the way that names itself decides and alone is charged; without one within reach nobody is charged or answered |
| LaggingReplicas.NodeBound | internal/cmd/cmd_allow.go:48-49 | one node, over any interleaving of requests and of entries applied anywhere at any time, admits at most a burst and one event for each time it becomes the owner in its own eyes, and the time it has been so divided by the period |
| LaggingReplicas.LaggingBound | internal/mgr/res_mgr_fsm.go:15-60 | with replicas that apply what they apply when they apply it, in disagreement or lagging for ever, all admissions together are at most the sum of what `NodeBound` allows each node |
| Clients.TCPClient.BindResourceConn | client/conn.go:287-290 | the resource is bound to the new connection and no other binding changes |
| Clients.TCPClient.Allow | client/client.go:159-182 | the recursive call with its rebinding computes `AllowFrom`, errors answered with true included |
| Clients.TCPClient.RegisterTokenBucket | client/client.go:114-135 | binds the name to the node of a successful reply unless it is the leader, and leaves every other binding alone; without a leader, a reply or a pooled connection nothing changes |
| Clients.FailuresLetThrough | client/client.go:159-182 | a call that fails for any reason, after any number of redirects, answers true with its error |
| Clients.OtherBindingsKept | client/client.go:159-182 | a call, however it ends and after any number of redirects, leaves the bindings of all other names alone |
| Clients.NoConnectionIff | client/client.go:159-163 | a call fails for want of a connection exactly if the name is not bound and there is no leader |
| Clients.AnsweredIffReached | client/client.go:159-182 | with agreement, exactly when the caller gets an answer without an error: it asks the owner, or a node that reaches the owner and a pooled connection to follow the redirect |
| Clients.ChainDecides | internal/cmd/cmd_allow.go:26-49 | along any chain of nodes that forward to one another up to one that names itself, the last decides and alone is charged, and the reply names the second |
| Clients.ChainConverges | client/client.go:159-182 | replicas agreeing or not, a client that asks the first node of a chain is handed on to the last: no error, bound to it, its own last decision, and that node alone charged, once for each node of the chain |
| Clients.RedirectConverges | client/client.go:159-182 | where the nodes agree, in exactly that case: at most one new binding, the owner's own last decision, bound to the owner exactly if redirected, only the owner charged, once or twice |
| Clients.ThenChargedOnce | client/client.go:171-179 | after a redirect the next request goes to the owner |
| Clients.RedirectRefusesIffNotTwice | client/client.go:171-179 | for any bucket and any two clock readings, exactly when a redirected request is refused that the owner would have admitted: the bucket, refilled for the first attempt, holds enough for one request, and for two neither then nor with what the second attempt refills |
| Frames.EncodeCmdReq | internal/endec/codec.go:62-90 | the array is filled with magic number, cut lengths, header and body |
| Frames.DecodeCmdReq | internal/endec/codec.go:92-125 | decodes or fails as `DecodeRequest`, with what is consumed in each case |
| Frames.RequestLayout | internal/endec/codec.go:62-90 | the bytes of a request: 15 10, the two lengths low byte first, header and body |
| Frames.RequestTakenIff | internal/endec/codec.go:92-125 | exactly which buffers begin with a request that can be taken, what is taken of them, and what is left of the others |
| Frames.LittleEndianTruncates | internal/endec/codec.go:82-84 | a length written into 16 or 32 bits is read back modulo their range |
| Frames.RequestRoundTripIffFits | internal/endec/codec.go:62-125 | a frame followed by any bytes is decoded to its command with the rest untouched exactly if the name is not empty, the header is below 2^16 and the total below 2^32 bytes |
| Frames.EncodeCmdResp | internal/endec/codec.go:179-194 | the two slices together are the response frame, blank magic for other numbers, which the decoder refuses (`OtherResponsesBreak`) |
| Frames.DecodeCmdResp | internal/endec/codec.go:133-177 | decodes or fails as `DecodeResponse` |
| Frames.ResponseLayout | internal/endec/codec.go:179-194 | the bytes of a response: 16 10 or 17 10, the length low byte first, and the payload |
| Frames.ResponseRoundTripIffShort | internal/endec/codec.go:133-194 | a successful response comes back exactly if it has at most 4096 bytes |
| Frames.ErrorRoundTripIffShort | internal/endec/codec.go:168-175 | an error response comes back as the error, code and text, exactly if its message has at most 4096 bytes |
| Frames.EventHandler.Process | internal/server/api/event_handler.go:151-169 | one dispatch and its answer's frame, which is read back as in `FrameReceived` |
| Frames.FrameReceived | internal/server/api/event_handler.go:151-169 | a message is read back as the same message and an error as its text without a code, an empty answer as its own error text, and no byte behind is touched |
| Frames.AnswersReceivedIffShort | internal/server/api/event_handler.go:80-139 | reading one response after the other off what the loop has written gives for each dispatched command its own response, in order, exactly if no message exceeds 4096 bytes and no error text 4093 |
| Frames.EventHandler.OnTraffic | internal/server/api/event_handler.go:80-139 | dispatches exactly the commands `Consume` finds, in order, counts each once, writes their answers in order and leaves what `Consume` leaves |
| Frames.CommandsTakenInOrder | internal/server/api/event_handler.go:80-139 | whatever follows, pipelined commands that fit are taken first and in order |
| Frames.PipelineDrains | internal/server/api/event_handler.go:80-139 | a buffer of pipelined commands is dispatched completely, in order, and drained |
| Frames.PipelineAnsweredIffShort | internal/server/api/event_handler.go:80-169 | the whole way: pipelined commands that fit are answered one by one, in order, exactly if no answer is too long |
| Frames.DrainsIffWhole | internal/server/api/event_handler.go:98-108 | the loop gets through a read exactly if it ends between two frames; the complete commands before are still dispatched |
| RpsHistories.RPS.Add | internal/metric/rps.go:116-118 | the 32-bit count wraps |
| RpsHistories.RPS.Push | internal/metric/rps.go:40-52 | appends one reading and drops at most the oldest |
| RpsHistories.RPS.Calc | internal/metric/rps.go:120-126 | reads the count out as a rate, sets it to zero and appends the rate |
| RpsHistories.RPS.FromPB | internal/metric/rps.go:93-110 | keeps of a message's history what is younger than the maximum |
| RpsHistories.RPS.AvgRPS | internal/metric/rps.go:54-74 | the backward loop computes the mean of the readings in range, zero for no history, no number for none in range |
| RpsHistories.KeptIsRecentSuffix | internal/metric/rps.go:40-52 | what is kept is a suffix of all readings ever pushed, and everything dropped is older than the maximum |
| RpsHistories.KeptIsSorted | internal/metric/rps.go:40-52 | the kept readings are in order of time |
| RpsHistories.TrimmedAnswersLikeFull | internal/metric/rps.go:40-74 | for every duration up to the maximum the trimmed history answers exactly as all readings ever pushed would |
| RpsHistories.AnsweredAlikeIffWithinMaximum | internal/metric/rps.go:40-74 | all histories are answered alike, whenever they are asked, exactly for the durations up to the maximum |
| RpsHistories.LongerDurationForgets | internal/metric/rps.go:40-74 | for every longer duration there is a history that is answered differently |
| RpsHistories.RPS.ToPB | internal/metric/rps.go:76-91 | the message holds the count and every reading in order |
| RpsHistories.HistoryMessageRoundTrip | internal/metric/rps.go:76-110 | the count and the readings come back from their message |
| RpsHistories.YoungerIsSuffix | internal/metric/rps.go:93-110 | of a history in order of time a restore keeps exactly the end from the first reading on that is younger than the maximum |
| RpsHistories.YoungerOccurs | internal/metric/rps.go:93-110 | of any history it keeps exactly the readings that are young enough, as often as they were there |
| RpsHistories.AverageBetween | internal/metric/rps.go:54-74 | an average lies between the bounds of the readings in range, and is missing exactly if there is a history and none of it is in range |
| RpsHistories.RestoredAnswersIffNotAllOld | internal/metric/rps.go:93-110 | a restored history answers as the original exactly unless all of it was too old |
| RpsHistories.NoRequestLostButByWrapping | internal/metric/rps.go:116-126 | every request is read out once or still counted, but for 2^32 with each wrap |
| HandOff.EveryIdInOnePlace | internal/cluster/grpc.go:55-74 | over every interleaving of handlers, timeouts included, each id sent is in exactly one of queue, set, one handler's hands, one true answer |
| HandOff.AnsweredOnce | internal/cluster/grpc.go:59-70 | true is answered only for an id that was sent, and by one handler only |
| HandOff.NothingLost | internal/cluster/grpc.go:55-74 | an id not taken by a handler can still be found exactly if it was sent |
| HandOff.FindsItsOwn | internal/cluster/grpc.go:59-70 | a handler that looks into the set finds its id exactly if it is there, one that has received an id answers true exactly if it is its own, and no step moves another handler |
| HandOff.Server.IsEntryApplied | internal/cluster/grpc.go:43-74 | undisturbed, the loop loses no id but the one it answers for, answers true only for an id that is there, and always finds it in time |
| LoadChoice.Sort | internal/cluster/probe/node_prober.go:227-234 | sorted by load and a permutation of the list |
| LoadChoice.TieIsLightest | internal/cluster/probe/node_prober.go:236-244 | the tie prefix of the sorted list is exactly the nodes of minimum load and the last has the maximum |
| LoadChoice.NodeProber.CalcNodeLoading | internal/cluster/probe/node_prober.go:226-248 | the lot falls on one of exactly the lightest nodes, the heavy node has the maximum load, and the difference is their non-negative difference |

## Left out

- Floating-point rounding, infinities and NaN: token counts are reals in the limiters and opaque 64-bit words on the wire; `Snapshots` relates the two by an arbitrary faithful representation. A period of zero, from a rate above 10^9, fills the token bucket up as the infinite quotient does.
- Overflow of durations and of times beyond their machine range, and the `uint32` range of bursts inside the limiters.
- LeakyBuckets.LeakyBucket.Drain: like Allow and Take, is stated for a positive period, that is for rates up to 10^9; above, the first drain of the code divides by zero.
- Messages are values: nil elements of repeated fields and aliasing between messages are not represented, and unrecognized bytes kept by the standard Timestamp are dropped. The fields added up by or-ing bits are added, which is the same for disjoint bits.
- Wire.ParseConcat: relates success and message; which of several errors a failing parse reports can depend on where the buffer ends.
- Codec.TimestampRoundTrip: the standard timestamp's own code is not part of this model; its message is taken as two varints.
- The cluster package's copies of the varint and skip helpers: the same code as in the API package, modelled once.
- The remaining generated messages (NodeInfo, MeowCmdResp, LeakyBucketLimiter and others): the same scheme again.
- Raft, its log and leader election, gRPC, gnet and net.Conn: a totally ordered log, an inbound buffer and full reads are assumed. A forwarded reply that is lost after the owner decided is not represented.
- GenerateEntryID: an identifier is any 16 bytes; that it is random and unlike all others is not expressed.
- ResourceManagers.CatchUp: a snapshot too long for a byte slice cannot be handed over.
- ManagerState.SnapshotPlusSuffix: compares stores; request statistics are filtered by the clock of the restore and are treated in `RpsHistories.RestoredAnswersIffNotAllOld`.
- Routing.Servers.AllowPbCmd: the nodes' stores are values in one map, not separate object managers; without a hop limit the real call does not return where the model says `NoReply`.
- ClusterBounds.ClusterBound: an entry takes effect on all nodes at once; `LaggingReplicas.LaggingBound` is for replicas that apply entries at different times.
- LaggingReplicas.LaggingBound: like ClusterBound, assumes one clock for all nodes, read in order, and forwards that take no time.
- Clients.TCPClient.Allow: the leader is a parameter, and connections are identified by their node; dialling, deadlines, pool refresh and retries of the leader lookup are left out.
- Frames.DecodeCmdReq: a header longer than its frame is reported as such; the code slices beyond the frame there.
- Frames.EventHandler.OnTraffic: the worker pool and asynchronous writes, where answers may be reordered, are left out; answers depend on the commands dispatched before.
- RpsHistories.RPS.Push: the maximum is fixed; changing it between two readings is left out.
- HandOff.Server.IsEntryApplied: one handler running alone; every interleaving of any number of handlers is `EveryIdInOnePlace`.
- HandOff.EveryIdInOnePlace: the sender, whose call is commented out in Apply, is part of the environment and sends each id once; the capacity of the channel is not limited.
- LoadChoice.Sort: an insertion sort stands for the library's sort; only its contract is used. Loads that are not numbers are left out.
- Mutexes: each operation is atomic, except in `HandOff`, where every step interleaves.
- CheckMemberStatus, UpdateNodeLoading, waitEntryApplied and updateResourceByEntryPB: driven by the network or not called.
- Standalone mode, configuration, logging, metrics backends, HTTP, scripts and benchmarks.
