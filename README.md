# Traffic Manager: path-finder bookkeeping, speed limits and lane props

This project models three parts of the Cities: Skylines Traffic Manager mod in Dafny and proves properties about the model.

1. **The stock path-finder `StockPathFind2`** (`TLM/TLM/Custom/PathFinding/NewFile1.cs`).
   - *Request queue.* Path-unit ids are linked through the units' next-unit field, with head and tail pointers. `CalculatePath` appends a unit or, when it skips the queue, prepends it. The path-finder thread dequeues the head and sets the unit's path-find flag bits.
   - *Bucket queue.* This is Dial's algorithm: 1024 buckets of 64 slots. Each bucket has a live range `bufferMin..bufferMax`, and there is a global window `bufferMinPos..bufferMaxPos`. `AddBufferItem`'s insert and decrease-key and the main loop's pop-min are modelled.
   - *Lane visitation table.* `laneLocation[lane]` packs a 15-bit search epoch above a 16-bit slot, and `laneTarget[lane]` records the predecessor position.
   - *Route reconstruction.* The walk along `laneTarget` writes at most 12 positions per path unit, chains a fresh unit each time one fills, and spreads the route length over the chain.
   - *Pure helpers.* The flag-mask derivation at the top of `PathFindImplementation`, `CalculateLaneSpeed` and `GetLaneDirection`.
2. **`SpeedLimitManager`** (`TLM/TLM/Manager/Impl/SpeedLimitManager.cs`). Covered:
   - the zero-means-unlimited conversion and the lane and segment eligibility tests;
   - the per-lane speed limit lookup, and the per-lane and per-direction `SetSpeedLimit`;
   - the vanilla and custom NetInfo limits;
   - setting a NetInfo's custom limit, which is propagated to its child NetInfos and written into their lanes;
   - the parent/child identification pass of `OnBeforeLoadData`.
3. **`LanePropManager`** (`TLM/TLM/Manager/Impl/LanePropManager.cs`): loading the prop collections by case-insensitive substring match, and the speed-limit-sign replacement.

Modules follow the program's structure:
- `Net`: lane types, directions, positions and lane infos shared by the game.
- `LaneRules`: flag derivation, lane speed and lane direction.
- `BucketQueue`: the search frontier as a value, with its invariant.
- `Route`: reconstruction as a value.
- `PathFind`: the classes `RequestQueue` and `SearchBuffers`, whose array fields the methods update in place.
- `SpeedLimits` and `LaneProps`.
- `Wrappers`: `Option`.

Each `SearchBuffers` method is proved against a pure function of the frontier. It ensures `State() == Spec(old(State()))`, where the specification is a frontier function such as `Begin`, `Add`, `Step`, `AddAll` (the candidate loop) or `Run` (the search loop). `PathFindImplementation` is `Run` after `Begin`, followed by the route specification. The other loops ensure `result == Spec(inputs)`. The other state-changing methods state their whole new state in terms of the old one. The lemmas about the specification functions state what the source promises.

### External collaborators (become parameters)

- The game's network (lane ids of positions, segment lane lists, segment inversion, next-lane links) becomes function parameters.
- The path-unit allocator becomes a sequence of the unit ids it would hand out.
- `AddPathReference` becomes a boolean.
- The cost model of `ProcessItem*` becomes an `expand` function from a popped item to the candidates it offers.
- The option `customSpeedLimitsEnabled`, `SpeedLimit.IsValidRange` and `NetService.IsLaneValid` become parameters.
- The `Flags` per-lane override store becomes a `map<nat, real>` field of `LaneSpeedFlags`.
- The fast per-segment override array becomes an optional sequence.

### Behaviour worth knowing

- **Start items are not recorded.** The two start (end-of-route) items seeded into bucket 0 are not recorded in `laneLocation`, so a lane can sit in the frontier twice. A lane does not have a single entry; `BeginKeepsInv` states that after seeding no lane is recorded.
- **Lock-free limit of a lane with no default.** `LockFreeAgreesWithGameSpeedLimit` needs a nonzero lane default. `GetLockFreeGameSpeedLimit` falls back to the lane's default as it is, so a default of 0 comes back as 0. `GetGameSpeedLimit` passes the same 0 through `ToGameSpeedLimit`, so it comes back as `MAX_SPEED`.
- **Same-bucket staleness test.** The source's test in `AddBufferItem` compares `slot & -64`, not `slot & 63`. Findings below describes it. `BucketQueue.AddAsWritten` and `PathFind.SearchBuffers.AddBufferItemAsWritten` model the test as written. The search loop (`Search`, `PathFindImplementation`) runs the corrected test; "## Left out" says what that changes.

## Model

| member | source | states |
|---|---|---|
| Net.InvertInvolution | TLM/TLM/Custom/PathFinding/NewFile1.cs:1162-1163 | inverting an inverted lane direction gives the original direction |
| Net.InvertSwapsBits | TLM/TLM/Custom/PathFinding/NewFile1.cs:1162-1163 | inversion swaps the Forward and Backward bits and keeps the Avoid bits |
| Net.InvertNamedDirections | TLM/TLM/Custom/PathFinding/NewFile1.cs:1140 | inversion maps Forward and Backward to each other and AvoidForward and AvoidBackward to each other, and fixes None, Both, Avoid and AvoidBoth |
| LaneRules.DeriveSettings | TLM/TLM/Custom/PathFinding/NewFile1.cs:159-180 | the lane types searched include every requested lane type; CarBan is always in the car-ban mask; Collapsed and PathFailed are always in the disable mask |
| LaneRules.SettingsMeaning | TLM/TLM/Custom/PathFinding/NewFile1.cs:159-180 | a stable path ignores cost; Flooded is disabled exactly when simulation flag 2 is clear; the masks hold only the flags the source can add; TransportVehicle is searched exactly when TransportVehicle or Vehicle was requested, and it is the only lane type that can be added |
| LaneRules.SettingsMonotone | TLM/TLM/Custom/PathFinding/NewFile1.cs:159-176 | setting more simulation flags never shrinks the car-ban mask, never grows the disable mask, and keeps ignore-cost set |
| LaneRules.GetLaneDirection | TLM/TLM/Custom/PathFinding/NewFile1.cs:1156-1169 | a lane index past the segment's lanes gives direction None and no lane type; otherwise the lane's type is returned |
| LaneRules.LaneDirectionOfInvertedSegment | TLM/TLM/Custom/PathFinding/NewFile1.cs:1159-1164 | on an inverted segment the direction is the inverse of the uninverted one, the lane type is the same, and Forward there means Backward on the uninverted segment |
| LaneRules.CalculateLaneSpeed | TLM/TLM/Custom/PathFinding/NewFile1.cs:1139-1154 | the lane speed is the lane's limit times 1, 0.2 or 0.1, and it is the full limit when the effective direction has no Avoid bit |
| LaneRules.LaneSpeedBounds | TLM/TLM/Custom/PathFinding/NewFile1.cs:1141-1153 | for a positive limit the speed lies in (0, limit], and it equals the limit exactly when the effective direction has no Avoid bit |
| LaneRules.LaneSpeedInversionSymmetry | TLM/TLM/Custom/PathFinding/NewFile1.cs:1140-1148 | travelling a to b on an inverted segment costs the same as b to a on the uninverted one |
| BucketQueue.SlotRoundTrip | TLM/TLM/Custom/PathFinding/NewFile1.cs:1132 | a slot number `bucket*64 + index` decodes back to its bucket and its index |
| BucketQueue.PackRoundTrip | TLM/TLM/Custom/PathFinding/NewFile1.cs:1134 | a packed lane location decodes to its epoch and slot, and it fits in 32 bits for a 15-bit epoch |
| BucketQueue.LocationBits | TLM/TLM/Custom/PathFinding/NewFile1.cs:1084-1086 | on 32-bit words `epoch << 16 \| slot` is `epoch*65536 + slot`, and the shift and mask recover epoch and slot |
| BucketQueue.SlotBits | TLM/TLM/Custom/PathFinding/NewFile1.cs:1090-1091 | on 32-bit words `bucket << 6 \| index` is `bucket*64 + index`; `>> 6` and `& 63` recover bucket and index; `& -64` gives the bucket's base slot, not the index |
| BucketQueue.RoundToInt | TLM/TLM/Custom/PathFinding/NewFile1.cs:1100 | rounding lands within one half of its argument |
| BucketQueue.RoundToIntMonotone | TLM/TLM/Custom/PathFinding/NewFile1.cs:1100 | rounding is monotone |
| BucketQueue.BucketIndexMonotone | TLM/TLM/Custom/PathFinding/NewFile1.cs:1117 | a cheaper item never gets a later bucket index than a dearer one |
| BucketQueue.FirstNonFull | TLM/TLM/Custom/PathFinding/NewFile1.cs:1120-1126 | the search upward from a bucket stops at the first bucket that is not full, or at 1024 when every bucket from there on is full |
| BucketQueue.Append | TLM/TLM/Custom/PathFinding/NewFile1.cs:1128-1135 | appending to a bucket with room keeps the frontier well formed |
| BucketQueue.Place | TLM/TLM/Custom/PathFinding/NewFile1.cs:1120-1136 | the insertion path (range check, full-bucket skip, append) keeps the frontier well formed |
| BucketQueue.Vacate | TLM/TLM/Custom/PathFinding/NewFile1.cs:1107-1110 | moving the bucket's last entry into a vacated slot keeps the frontier well formed and leaves no bucket full |
| BucketQueue.Add | TLM/TLM/Custom/PathFinding/NewFile1.cs:1083-1137 | `AddBufferItem` with the staleness test corrected keeps the frontier well formed and never moves the window or the epoch |
| BucketQueue.AppendSlotFree | TLM/TLM/Custom/PathFinding/NewFile1.cs:1132 | the slot after a bucket's last live entry is in range, holds no live or popped entry, and belongs to that bucket |
| BucketQueue.AppendKeepsBuckets | TLM/TLM/Custom/PathFinding/NewFile1.cs:1128-1132 | after an append every bucket's range is still valid and `bufferMaxPos` still covers every nonempty bucket |
| BucketQueue.AppendKeepsEpochs | TLM/TLM/Custom/PathFinding/NewFile1.cs:1134 | after an append the lane is recorded in this epoch at exactly the new slot, and every other lane's epoch is unchanged |
| BucketQueue.AppendKeepsHomes | TLM/TLM/Custom/PathFinding/NewFile1.cs:1133-1134 | after an append every lane recorded in this epoch again points to a slot that holds that lane's entry |
| BucketQueue.AppendKeepsEntries | TLM/TLM/Custom/PathFinding/NewFile1.cs:1132-1135 | after an append every live entry sits in a bucket no earlier than its own cost's bucket, and the new slot is live |
| BucketQueue.PlaceKeepsInv | TLM/TLM/Custom/PathFinding/NewFile1.cs:1120-1136 | the insertion either places the item in a free slot of the first non-full bucket at or after its bucket, with every invariant kept, or changes nothing when the index is out of range or all later buckets are full |
| BucketQueue.VacateKeepsInv | TLM/TLM/Custom/PathFinding/NewFile1.cs:1107-1110 | vacating a queued lane's slot keeps every invariant except that lane's home, leaves its bucket with room, and keeps the window, epoch and predecessor map |
| BucketQueue.AddKeepsBest | TLM/TLM/Custom/PathFinding/NewFile1.cs:1084-1136 | `AddBufferItem` keeps the invariant. Every other lane keeps its target, its recorded state, and its entry with that entry's liveness. A lane already settled in this epoch is never touched. A queued lane ignores a dearer or equal item. It takes a strictly cheaper one with its target and stays live at its slot; the queued items lose the old entry and gain the new one. A new lane is live with the item and its target whenever a bucket has room, and the queued items gain the item; otherwise nothing changes |
| BucketQueue.AppendLive | TLM/TLM/Custom/PathFinding/NewFile1.cs:1128-1135 | an append adds exactly the item to the multiset of queued items |
| BucketQueue.AppendKeepsOwners | TLM/TLM/Custom/PathFinding/NewFile1.cs:1132-1134 | after an append every entry queued outside bucket 0 is the one its lane's location points to |
| BucketQueue.VacateLive | TLM/TLM/Custom/PathFinding/NewFile1.cs:1107-1110 | vacating a live slot removes exactly that slot's entry from the queued items |
| BucketQueue.VacateKeepsOwners | TLM/TLM/Custom/PathFinding/NewFile1.cs:1107-1110 | vacating a queued lane's slot outside bucket 0 keeps every other lane pointing at its own entry, keeps every other lane's target, entry and liveness, and removes exactly that lane's entry from the queued items |
| BucketQueue.AddInPlace | TLM/TLM/Custom/PathFinding/NewFile1.cs:1101-1105 | a cheaper item for a queued lane that rounds to the same bucket overwrites the entry and the lane's target and nothing else; the invariant and every other lane are kept; the old entry is traded for the item in the queued items |
| BucketQueue.AddMoves | TLM/TLM/Custom/PathFinding/NewFile1.cs:1107-1136 | a cheaper item for a queued lane that rounds to another bucket vacates the old slot and places the item; every other lane is kept; the old entry is traded for the item in the queued items |
| BucketQueue.Step | TLM/TLM/Custom/PathFinding/NewFile1.cs:273-280 | one pop step keeps the frontier well formed |
| BucketQueue.StepKeepsInv | TLM/TLM/Custom/PathFinding/NewFile1.cs:273-280 | a pop step keeps the invariant and never moves `bufferMinPos` back |
| BucketQueue.QueuedFromCurrentBucket | TLM/TLM/Custom/PathFinding/NewFile1.cs:273-280 | every live entry is in a bucket inside the window and is not popped |
| BucketQueue.StepTakesFirst | TLM/TLM/Custom/PathFinding/NewFile1.cs:273-280 | a pop either takes the first live slot, which has the least slot number of all live entries and a bucket index no later than the current bucket, and marks it popped; or finds the current bucket empty and advances the window by one, with every live entry in a later bucket |
| BucketQueue.StepLive | TLM/TLM/Custom/PathFinding/NewFile1.cs:273-280 | a pop removes exactly the taken entry from the queued items; an advance of the window removes nothing |
| BucketQueue.AddAll | TLM/TLM/Custom/PathFinding/NewFile1.cs:313-349 | adding a popped entry's candidates in order keeps the invariant, the window start and the epoch |
| BucketQueue.AddAllKeepsOthers | TLM/TLM/Custom/PathFinding/NewFile1.cs:313-349 | a lane no candidate names keeps its target, its recorded state, and its entry with that entry's liveness |
| BucketQueue.ExhaustedIsEmpty | TLM/TLM/Custom/PathFinding/NewFile1.cs:273 | once the window is past `bufferMaxPos` no entry is live |
| BucketQueue.NextEpoch | TLM/TLM/Custom/PathFinding/NewFile1.cs:157 | the next epoch is in [0, 0x7FFF] and is the successor until it wraps |
| BucketQueue.Renew | TLM/TLM/Custom/PathFinding/NewFile1.cs:250-255 | the epoch step with the reset on wrap keeps the frontier well formed |
| BucketQueue.Cleared | TLM/TLM/Custom/PathFinding/NewFile1.cs:257-260 | emptying every bucket keeps the frontier well formed |
| BucketQueue.Seed | TLM/TLM/Custom/PathFinding/NewFile1.cs:262-270 | seeding an end item into bucket 0 keeps the frontier well formed |
| BucketQueue.Begin | TLM/TLM/Custom/PathFinding/NewFile1.cs:246-270 | starting a search keeps the frontier well formed |
| BucketQueue.BeginKeepsInv | TLM/TLM/Custom/PathFinding/NewFile1.cs:246-270 | a new search meets the invariant; it is in the next epoch with no lane recorded, the reset value 0xFFFF0000 included; the window starts at 0; only slots 0 and 1 are live, holding the present end items in order |
| BucketQueue.SeedKeepsSeeding | TLM/TLM/Custom/PathFinding/NewFile1.cs:262-270 | an end item with segment 0 is skipped; any other goes into the next slot of bucket 0; slots already seeded are kept |
| BucketQueue.StaleAsWrittenMeaning | TLM/TLM/Custom/PathFinding/NewFile1.cs:1092-1098 | the staleness test as written refuses a slot exactly when its bucket is behind the window, or it is bucket 0 and that bucket has been popped from at all |
| BucketQueue.AddAsWritten | TLM/TLM/Custom/PathFinding/NewFile1.cs:1083-1137 | `AddBufferItem` exactly as written keeps the frontier well formed; what it computes is stated by the lemmas below that compare it with `Add` |
| BucketQueue.AsWrittenAgreesWhenTestsAgree | TLM/TLM/Custom/PathFinding/NewFile1.cs:1090-1098 | whenever the written test and the popped test decide alike on the lane's recorded slot, the written `AddBufferItem` gives exactly the corrected result |
| BucketQueue.AsWrittenAgreesOffCurrentBucket | TLM/TLM/Custom/PathFinding/NewFile1.cs:1090-1098 | for a lane whose recorded slot is outside the current bucket, or when nothing was popped from the current bucket yet, the written `AddBufferItem` equals the corrected one and keeps the invariant |
| BucketQueue.AsWrittenRewriteKeepsInv | TLM/TLM/Custom/PathFinding/NewFile1.cs:1101-1105 | the written in-place rewrite of an entry already popped from the current bucket keeps the invariant |
| BucketQueue.BeginPoppedOk | TLM/TLM/Custom/PathFinding/NewFile1.cs:246-270 | a new search has no popped slot, so every popped entry of the current bucket trivially rounds to that bucket or an earlier one |
| BucketQueue.StepKeepsPoppedOk | TLM/TLM/Custom/PathFinding/NewFile1.cs:273-280 | a pop keeps every popped entry of the current bucket rounding to that bucket or an earlier one: the entry taken was queued there, and a bucket moved to has nothing popped |
| BucketQueue.AddKeepsPoppedOk | TLM/TLM/Custom/PathFinding/NewFile1.cs:1083-1136 | `AddBufferItem` leaves the window, the read cursors and every popped slot's entry unchanged, so it keeps that property |
| BucketQueue.AddAllKeepsPoppedOk | TLM/TLM/Custom/PathFinding/NewFile1.cs:313-349 | adding all candidates of a popped entry keeps that property |
| PathFind.RunKeepsPoppedOk | TLM/TLM/Custom/PathFinding/NewFile1.cs:272-351 | the search loop keeps that property from the state it starts with to the state it ends in |
| BucketQueue.AsWrittenNeverVacatesPopped | TLM/TLM/Custom/PathFinding/NewFile1.cs:1091-1111 | with that property, a cheaper item for a lane popped from the current bucket rounds to that bucket, so the written `AddBufferItem` never takes the vacate branch for it: in bucket 0 it drops the item, in a later bucket it rewrites the popped slot and the lane's target in place |
| BucketQueue.AsWrittenDropsQueuedImprovement | TLM/TLM/Custom/PathFinding/NewFile1.cs:1091-1098 | as written, a cheaper item for a lane still queued in bucket 0 is dropped once bucket 0 has been popped from, while the corrected `Add` lowers that lane's cost |
| BucketQueue.AsWrittenRewritesSettledEntry | TLM/TLM/Custom/PathFinding/NewFile1.cs:1091-1105 | as written, a cheaper item for an already-popped lane in the current bucket rewrites that popped slot and the lane's target, while the corrected `Add` changes nothing |
| BucketQueue.StaleAsWrittenWitnesses | TLM/TLM/Custom/PathFinding/NewFile1.cs:1091-1096 | concrete frontiers: one where the test as written refuses a live, unpopped slot, and one where it accepts a popped slot |
| Route.Trail | TLM/TLM/Custom/PathFinding/NewFile1.cs:375-415 | the walk from a position has at most `fuel` steps and starts at that position; it reports success exactly when its last position is an end position |
| Route.TrailFollowsTargets | TLM/TLM/Custom/PathFinding/NewFile1.cs:413-414 | each position of the walk is followed by the predecessor recorded for its lane |
| Route.Chunks | TLM/TLM/Custom/PathFinding/NewFile1.cs:385-411 | positions are cut into records that concatenate back to the positions; each record holds between 1 and 12 positions; every record except the last is full; the number of records is the ceiling of the count over 12 |
| Route.ChunksOfFullUnits | TLM/TLM/Custom/PathFinding/NewFile1.cs:385-411 | full records followed by a nonempty last record are exactly the records the cut produces |
| Route.CountsSum | TLM/TLM/Custom/PathFinding/NewFile1.cs:417-418 | the per-record position counts add up to the total number of positions written |
| Route.Lengths | TLM/TLM/Custom/PathFinding/NewFile1.cs:419-431 | one length per record |
| Route.DistributeLengths | TLM/TLM/Custom/PathFinding/NewFile1.cs:419-431 | the loop over the chain assigns each record the total length times the share of positions from that record on |
| Route.ScaledOrder | TLM/TLM/Custom/PathFinding/NewFile1.cs:424 | a share of more remaining positions gives a longer remaining length, never beyond the total |
| Route.LengthsDecrease | TLM/TLM/Custom/PathFinding/NewFile1.cs:419-431 | the first record carries the whole length, every record a positive length at most the total, and the lengths strictly decrease along the chain |
| Route.ReadyWhenReached | TLM/TLM/Custom/PathFinding/NewFile1.cs:376-434 | on reaching an end position, the route is the first unit followed by the allocated units, one per full record, holding the cut positions and the distributed lengths |
| Route.FailsWithoutUnits | TLM/TLM/Custom/PathFinding/NewFile1.cs:385-403 | when the positions cannot fit in the first unit plus the units the allocator hands out, the route fails |
| Route.RouteShape | TLM/TLM/Custom/PathFinding/NewFile1.cs:359-436 | a ready route starts at the calling unit; its units, records and lengths correspond one to one; it ends at an end position with full records in between; its first position is the winner, preceded by the winner at the start offset when the offsets differ |
| Route.BuildRoute | TLM/TLM/Custom/PathFinding/NewFile1.cs:359-439 | reconstruction yields exactly the route specification, or failure |
| Route.WriteUnits | TLM/TLM/Custom/PathFinding/NewFile1.cs:375-438 | the writing loop yields the specification of the walk's positions after the ones already written |
| Route.RouteLength | TLM/TLM/Custom/PathFinding/NewFile1.cs:356 | the stored length is the duration for mixed pedestrian searches and the method distance otherwise |
| Route.SpeedByte | TLM/TLM/Custom/PathFinding/NewFile1.cs:358 | the stored speed is `methodDistance*100/max(0.01, duration)` truncated and clamped to [0, 255] |
| PathFind.LinkedWalk | TLM/TLM/Custom/PathFinding/NewFile1.cs:1183-1184 | following the next-unit links from the head visits exactly the pending units in order |
| PathFind.LinkedAppend | TLM/TLM/Custom/PathFinding/NewFile1.cs:109-115 | linking a unit after the tail gives a linked queue with the unit last |
| PathFind.LinkedPrepend | TLM/TLM/Custom/PathFinding/NewFile1.cs:100-107 | linking a unit before the head gives a linked queue with the unit first |
| PathFind.LinkedPop | TLM/TLM/Custom/PathFinding/NewFile1.cs:1183-1192 | unlinking the head leaves a linked queue of the remaining units, with the tail reset when it empties |
| PathFind.RequestQueue.CalculatePath | TLM/TLM/Custom/PathFinding/NewFile1.cs:94-128 | without a reference nothing changes and false is returned. Otherwise the unit joins the front when it skips the queue and the back otherwise; it is flagged created and counted; exactly one link is written (old tail to unit, or unit to old head), or none when the queue was empty |
| PathFind.RequestQueue.PushFront | TLM/TLM/Custom/PathFinding/NewFile1.cs:100-107 | prepending makes the unit the new head linked to the old head; the tail is set only on an empty queue |
| PathFind.RequestQueue.PushBack | TLM/TLM/Custom/PathFinding/NewFile1.cs:109-115 | appending links the old tail to the unit and makes it the tail; the head changes only on an empty queue |
| PathFind.RequestQueue.BeginCalculation | TLM/TLM/Custom/PathFinding/NewFile1.cs:1175-1193 | with pending units, the head becomes the unit being calculated; the queue advances; its link is cleared; flag 1 is cleared and flag 2 set. With none, nothing changes |
| PathFind.RequestQueue.TakeHead | TLM/TLM/Custom/PathFinding/NewFile1.cs:1183-1192 | dequeuing pops the head, clears its link and keeps the count equal to the queue's length (0 once empty) |
| PathFind.RequestQueue.CompleteCalculation | TLM/TLM/Custom/PathFinding/NewFile1.cs:1205-1217 | after the search the unit gets flag 4 (ready) or 8 (failed) and loses flag 2, and no unit is being calculated |
| PathFind.FlagLifecycle | TLM/TLM/Custom/PathFinding/NewFile1.cs:1193 | while calculating, a unit has flag 2 without flag 1; afterwards it has neither, with flag 4 when ready and flag 8 when failed |
| PathFind.EndpointItem | TLM/TLM/Custom/PathFinding/NewFile1.cs:184-236 | a request position with segment 0 or beyond the position count gives the empty item; any other gives an item at that position and lane with zero cost and duration |
| PathFind.RequestEnds | TLM/TLM/Custom/PathFinding/NewFile1.cs:182-236 | positions 0 and 2 are the starts A and B with their offsets, and positions 1 and 3 are the ends A and B; each is taken only when its segment is nonzero and the low nibble of the position count covers it |
| PathFind.Run | TLM/TLM/Custom/PathFinding/NewFile1.cs:272-351 | the search loop on the frontier value keeps the invariant and the epoch, and never moves the window back |
| PathFind.RunStopsAtFirst | TLM/TLM/Custom/PathFinding/NewFile1.cs:273-311 | every entry the search pops before its last reaches neither start |
| PathFind.RunWinnerIsLast | TLM/TLM/Custom/PathFinding/NewFile1.cs:273-311 | a winner is the last entry popped, with start A's offset when it reaches A and otherwise B's offset, and it reaches B |
| PathFind.RunFailsDry | TLM/TLM/Custom/PathFinding/NewFile1.cs:272-273 | a search without a winner popped no entry reaching either start and leaves nothing queued |
| PathFind.SearchBuffers.StartSearch | TLM/TLM/Custom/PathFinding/NewFile1.cs:246-270 | the buffers become the frontier that `Begin` specifies, which meets the invariant |
| PathFind.SearchBuffers.NextSearchIndex | TLM/TLM/Custom/PathFinding/NewFile1.cs:250-255 | the epoch advances with the lane table reset on wrap, as `Renew` specifies |
| PathFind.SearchBuffers.ClearBuckets | TLM/TLM/Custom/PathFinding/NewFile1.cs:257-260 | the bucket ranges become empty, as `Cleared` specifies |
| PathFind.SearchBuffers.SeedBucket | TLM/TLM/Custom/PathFinding/NewFile1.cs:262-270 | an end item is seeded, as `Seed` specifies |
| PathFind.SearchBuffers.AddBufferItemAsWritten | TLM/TLM/Custom/PathFinding/NewFile1.cs:1083-1137 | the in-place update with the staleness test exactly as written (`slot & -64` against the read cursor) is `AddAsWritten` of the old frontier |
| PathFind.SearchBuffers.AddBufferItem | TLM/TLM/Custom/PathFinding/NewFile1.cs:1083-1137 | the in-place update of the buffers is the corrected `Add` of the old frontier, and the invariant is kept |
| PathFind.SearchBuffers.VacateSlot | TLM/TLM/Custom/PathFinding/NewFile1.cs:1107-1110 | the in-place move of the bucket's last entry is `Vacate` |
| PathFind.SearchBuffers.PlaceItem | TLM/TLM/Custom/PathFinding/NewFile1.cs:1120-1136 | the in-place insertion is `Place` |
| PathFind.SearchBuffers.PopNext | TLM/TLM/Custom/PathFinding/NewFile1.cs:273-280 | one iteration of the pop loop is `Step`. An empty bucket advances `bufferMinPos`. Otherwise the entry at the bucket's min slot is returned, that slot is now popped, and the bucket's min goes up by one |
| PathFind.SearchBuffers.ExpandInto | TLM/TLM/Custom/PathFinding/NewFile1.cs:313-349 | the candidate loop leaves the frontier that `AddAll` specifies |
| PathFind.SearchBuffers.Search | TLM/TLM/Custom/PathFinding/NewFile1.cs:272-351 | with the staleness test corrected (see "## Left out"), the main loop leaves exactly the frontier, winner and offset of `Run` on the old frontier. It keeps the invariant, never moves `bufferMinPos` back, and keeps the epoch. On success the winner is a popped entry matching start A with A's offset, or else start B with B's offset. On failure no entry is left live |
| PathFind.SearchBuffers.PathFindImplementation | TLM/TLM/Custom/PathFinding/NewFile1.cs:152-439 | with the staleness test corrected (see "## Left out"), one path-find runs in the next epoch. Without a winner it fails with no speed written and the frontier exhausted. The frontier and the winner are those of `Run` on the new search: every entry popped before the last reaches neither start; a winner is the last one popped; without a winner none popped reaches a start. With one, the winner is a popped entry matching a start; the route is the reconstruction specification from that winner using the lane targets; the speed is `SpeedByte` of the winner |
| SpeedLimits.ToGameSpeedLimit | TLM/TLM/Manager/Impl/SpeedLimitManager.cs:245-249 | zero maps to `MAX_SPEED` (20); every other value is returned unchanged; the result is never zero |
| SpeedLimits.ToGameSpeedLimitIdempotent | TLM/TLM/Manager/Impl/SpeedLimitManager.cs:245-249 | converting twice is converting once |
| SpeedLimits.CustomisableLanesAreMotorised | TLM/TLM/Manager/Impl/SpeedLimitManager.cs:63-66 | a lane is customisable exactly when its lane types meet {Vehicle, TransportVehicle} and its vehicle types meet {Car, Tram, Metro, Train, Monorail} |
| SpeedLimits.MayHaveCustomSegmentSpeedLimits | TLM/TLM/Manager/Impl/SpeedLimitManager.cs:50-56 | a segment that is not created is never customisable; a created one is customisable exactly when it is a road, or a public-transport train, tram, metro or monorail |
| SpeedLimits.LaneChain | TLM/TLM/Manager/Impl/SpeedLimitManager.cs:197-210 | the lane walk along next-lane links has at most one lane per lane info and stops at lane id 0 |
| SpeedLimits.CustomSpeedLimitMeaning | TLM/TLM/Manager/Impl/SpeedLimitManager.cs:182-214 | an override wins. Otherwise, on a customisable segment where the lane's first position in the walk is index i and lane info i is customisable, that info's limit is returned |
| SpeedLimits.GetCustomSpeedLimit | TLM/TLM/Manager/Impl/SpeedLimitManager.cs:182-214 | the lane walk yields the per-lane specification (override, else the lane info's default, else 0) |
| SpeedLimits.GetLockFreeGameSpeedLimit | TLM/TLM/Manager/Impl/SpeedLimitManager.cs:225-238 | the stored fast-array value after the zero conversion when enabled, customisable and stored; the lane's default limit otherwise |
| SpeedLimits.LockFreeAgreesWithGameSpeedLimit | TLM/TLM/Manager/Impl/SpeedLimitManager.cs:221-238 | when the fast array mirrors the override store, the lock-free limit equals the converted per-lane custom limit |
| SpeedLimits.SetLaneSpeedLimit | TLM/TLM/Manager/Impl/SpeedLimitManager.cs:473-486 | succeeds exactly when the lane is customisable, the value in range and the lane valid; then only that lane's override is set, otherwise nothing is written |
| SpeedLimits.SetDirectionSpeedLimit | TLM/TLM/Manager/Impl/SpeedLimitManager.cs:495-542 | succeeds exactly when the segment is customisable, the value in range and its lanes present; then every walked lane whose lane info has that final direction and is customisable gets the value; otherwise nothing is written |
| SpeedLimits.WriteMatching | TLM/TLM/Manager/Impl/SpeedLimitManager.cs:519-539 | the lane loop sets the override of exactly the matching walked lanes |
| SpeedLimits.MatchedUpToMeaning | TLM/TLM/Manager/Impl/SpeedLimitManager.cs:521-529 | a lane is matched within the first k steps exactly when some index below k walks to it with a matching lane info |
| SpeedLimits.SetAllMeaning | TLM/TLM/Manager/Impl/SpeedLimitManager.cs:534 | after writing a set of lanes, exactly those lanes and the old keys are present, with the new value on the written lanes and the old values elsewhere |
| SpeedLimits.DirectionUpdateIsRead | TLM/TLM/Manager/Impl/SpeedLimitManager.cs:495-542 | after a direction update every matched lane reads back the new value, and every other lane reads back what it read before |
| SpeedLimits.LargestIsMaximum | TLM/TLM/Manager/Impl/SpeedLimitManager.cs:355-360 | the running maximum is an element no smaller than any element |
| SpeedLimits.VanillaIsLargestDefault | TLM/TLM/Manager/Impl/SpeedLimitManager.cs:327-363 | for a known info with an AI and a nonempty vanilla array, the vanilla limit is the largest lane default |
| SpeedLimits.UpdatedLanes | TLM/TLM/Manager/Impl/SpeedLimitManager.cs:458-463 | every lane whose vehicle type meets `VEHICLE_TYPES` gets the game limit; every other lane is unchanged |
| SpeedLimits.UpdatedLanesIdempotent | TLM/TLM/Manager/Impl/SpeedLimitManager.cs:458-463 | rewriting twice is rewriting once, and every customisable lane carries the game limit afterwards |
| SpeedLimits.PropagatedMeaning | TLM/TLM/Manager/Impl/SpeedLimitManager.cs:422-430 | propagation stores the value under every child name known by name, and keeps every other entry |
| SpeedLimits.NewOverridesMeaning | TLM/TLM/Manager/Impl/SpeedLimitManager.cs:413-430 | after setting a NetInfo's limit, the store has the old names plus the info and its known children; the new value is on those; every other name is unchanged; children not known by name are skipped |
| SpeedLimits.SetThenGet | TLM/TLM/Manager/Impl/SpeedLimitManager.cs:370-432 | after setting, the custom limit read for the info, and for every known child, is the value set |
| SpeedLimits.FirstParent | TLM/TLM/Manager/Impl/SpeedLimitManager.cs:670-684 | the scan finds the first main info from y on that is a parent (the child is procedural and its name strictly extends the parent's), or none when there is none |
| SpeedLimits.RemoveAtMembers | TLM/TLM/Manager/Impl/SpeedLimitManager.cs:687 | removing one info keeps all the others and adds none |
| SpeedLimits.FileKeepsExtending | TLM/TLM/Manager/Impl/SpeedLimitManager.cs:675-680 | filing a child under a parent whose name it extends keeps every child list made of names extending their parent, keeps earlier entries, and files the child |
| SpeedLimits.IdentifyFilesChildren | TLM/TLM/Manager/Impl/SpeedLimitManager.cs:662-693 | the pass only appends to child lists, and every child it files extends its parent's name |
| SpeedLimits.IdentifyFacts | TLM/TLM/Manager/Impl/SpeedLimitManager.cs:662-693 | the remaining customisable infos are a subset of the main infos; every non-procedural info stays; every removed info is procedural and is filed as a child (the converse is `IdentifyRemovesEveryChild`) |
| SpeedLimits.IdentifyLeavesNoParent | TLM/TLM/Manager/Impl/SpeedLimitManager.cs:662-693 | once every info before `x` has no parent in the list, the pass from `x` leaves a list in which no info has a parent |
| SpeedLimits.FileChildCovers | TLM/TLM/Manager/Impl/SpeedLimitManager.cs:670-687 | filing one child keeps every original info either in the list or represented there by an info whose name its name extends |
| SpeedLimits.IdentifyCovers | TLM/TLM/Manager/Impl/SpeedLimitManager.cs:662-693 | after the pass every original info is in the remaining list or has an ancestor there whose name its name extends |
| SpeedLimits.IdentifyRemovesEveryChild | TLM/TLM/Manager/Impl/SpeedLimitManager.cs:662-693 | no remaining info has a parent among the remaining infos, and every info that has a parent among the main infos is removed |
| SpeedLimits.IdentifyFilesUnderFirstParent | TLM/TLM/Manager/Impl/SpeedLimitManager.cs:670-687 | an info whose first parent in the current list is at `y` has no parent before `y`, and the pass files its name under that parent's name, after the children already listed there |
| SpeedLimits.SpeedLimitManager.GetVanillaNetInfoSpeedLimit | TLM/TLM/Manager/Impl/SpeedLimitManager.cs:327-363 | the foreach loop yields the vanilla specification: 0 for a null info, a missing AI, a null or unknown name or an empty array, and the maximum otherwise |
| SpeedLimits.SpeedLimitManager.GetCustomNetInfoSpeedLimit | TLM/TLM/Manager/Impl/SpeedLimitManager.cs:370-390 | -1 for a null info or name; the stored override when present; the vanilla limit otherwise |
| SpeedLimits.SpeedLimitManager.SetCustomNetInfoSpeedLimit | TLM/TLM/Manager/Impl/SpeedLimitManager.cs:397-432 | a null info or name changes nothing. Otherwise the store becomes `NewOverrides`, and the info's lanes and the lanes of every known child are rewritten with the converted limit |
| SpeedLimits.SpeedLimitManager.PropagateChildren | TLM/TLM/Manager/Impl/SpeedLimitManager.cs:422-430 | the child loop stores the value for every known child and rewrites each known child's lanes |
| SpeedLimits.SpeedLimitManager.PropagateChild | TLM/TLM/Manager/Impl/SpeedLimitManager.cs:424-429 | one child known by name gets the value and has its lanes rewritten; an unknown child is skipped |
| SpeedLimits.SpeedLimitManager.UpdateNetInfoGameSpeedLimit | TLM/TLM/Manager/Impl/SpeedLimitManager.cs:434-464 | for an info with a name and lanes, the lanes become `UpdatedLanes` of the old lanes |
| SpeedLimits.SpeedLimitManager.FindParent | TLM/TLM/Manager/Impl/SpeedLimitManager.cs:670-684 | the inner loop returns the first parent |
| SpeedLimits.SpeedLimitManager.IdentifyParents | TLM/TLM/Manager/Impl/SpeedLimitManager.cs:662-693 | the while loop with `RemoveAt` leaves the customisable list, child lists and name map that `Identify` specifies |
| LaneProps.LowerChar | TLM/TLM/Manager/Impl/LanePropManager.cs:106 | upper-case ASCII letters are lowered and every other character is kept |
| LaneProps.LowerEach | TLM/TLM/Manager/Impl/LanePropManager.cs:106 | lowering a name lowers each character in place |
| LaneProps.ContainsMeaning | TLM/TLM/Manager/Impl/LanePropManager.cs:106 | the substring test holds exactly when the value occurs at some offset of the name |
| LaneProps.LastMatchBefore | TLM/TLM/Manager/Impl/LanePropManager.cs:104-110 | the last matching prefab among the first n, with no match after it, or none when none of them matches |
| LaneProps.LastMatchIsLast | TLM/TLM/Manager/Impl/LanePropManager.cs:104-110 | the prefab a key ends up with is a matching prefab of the list with no later match, and there is none exactly when no prefab matches |
| LaneProps.LoadedCollectionMeaning | TLM/TLM/Manager/Impl/LanePropManager.cs:101-111 | every loaded key is a requested key bound to a matching prefab of the list; a requested key missing from the collection has no matching prefab |
| LaneProps.LoadedOneMore | TLM/TLM/Manager/Impl/LanePropManager.cs:102-111 | loading one more key adds its last match, or nothing when it has none |
| LaneProps.LanePropManager.LoadProps | TLM/TLM/Manager/Impl/LanePropManager.cs:99-114 | the nested loops build the loaded collection and `Add` stores it under a key that was absent, with the other collections kept |
| LaneProps.LanePropManager.OnAfterLoadData | TLM/TLM/Manager/Impl/LanePropManager.cs:65-73 | the fallback table is loaded under "fallback" |
| LaneProps.LoadEntry | TLM/TLM/Manager/Impl/LanePropManager.cs:104-110 | the inner loop leaves the key bound to the last matching prefab, and leaves the collection unchanged when none matches |
| LaneProps.PropDirection | TLM/TLM/Manager/Impl/LanePropManager.cs:49 | angle 0 selects Forward and any other angle Backward |
| LaneProps.ReplaceProp | TLM/TLM/Manager/Impl/LanePropManager.cs:47-63 | the fallback prop for the sign key when the final prop is present, its lower-cased name contains "speed limit", and the key is in the fallback collection; the original final prop otherwise |
| LaneProps.OnlyFallbackKeysReplaced | TLM/TLM/Manager/Impl/LanePropManager.cs:26-33 | with the fallback collection loaded, a prop is replaced only for the keys "30", "40", "50", "60" and "100", and only by a prefab of the list whose name matches that key's entry |

## Left out

- **Concurrency.** Locks, the path-finder thread's waiting, thread creation, `WaitForAllPaths` and `OnDestroy` are left out. The queue operations are sequential methods, and the model does not capture interleavings.
- **Cost model.** The cost arithmetic in `ProcessItemMain`, `ProcessItemCosts`, `ProcessItemPublicTransport` and `ProcessItemPedBicycle` is floating-point geometry over the game's network. It is the `expand` parameter, which yields the candidate items for a popped item, and the model adds them in order with `AddBufferItem`. The node-lane loop and the disabled-node test around those calls are inside that parameter too.
- **Floating point.** Costs, lengths and speeds are `real`, and the float rounding of the source is not modelled. The float-to-int conversion in `Mathf.RoundToInt` is also left out. For a cost whose scaled value is NaN or at least 2^31, C#'s unchecked conversion gives an unspecified value (int.MinValue on x86/x64). `Mathf.Max(…, m_bufferMinPos)` then turns that into the current bucket, so the source would queue such an item in the current bucket. The model rounds the exact real instead and drops any item whose bucket index is 1024 or more.
  - `RoundToInt` is round-half-to-even on reals.
  - `SpeedLimit.IsZero` is `== 0`.
- **Path-unit pool.** `PathManager`'s pool is not modelled:
  - `AddPathReference` is a boolean parameter;
  - `CreateItem` is the sequence of units it would hand out;
  - `ReleasePath` and `m_pathUnitCount` are not modelled.
- **Route records.** Reconstruction returns the records (unit ids, positions, lengths) as a value instead of writing them into the shared path-unit buffer in place.
- **Vehicle lane.** The vehicle lane and offset taken from position 11 (lines 238-244) are not modelled; nothing in the modelled search reads them.
- PathFind.SearchBuffers.Search and PathFind.SearchBuffers.PathFindImplementation run `AddBufferItem` with the staleness test corrected (`slot & 63`), not as written (`slot & -64`). Their contracts therefore describe the evidently intended search, not the source's. The as-written `AddBufferItemAsWritten` is modelled and compared with the corrected one, but no search loop is proved over it. The source's search differs in two ways:
  - After something was popped from bucket 0, a cheaper candidate for a lane still queued in bucket 0 is refused by the source; the model lowers that lane's entry and target (`AsWrittenDropsQueuedImprovement`).
  - With the search at bucket b > 0, a cheaper candidate for a lane already popped from bucket b makes the source rewrite the popped slot and that lane's `laneTarget`. The predecessor chain the route walk follows then changes, so the returned route can differ. The model leaves the settled lane alone (`AsWrittenRewritesSettledEntry`). The source's vacate branch is never taken for such a lane, because that lane's popped entry and the cheaper candidate round to the same bucket (`AsWrittenNeverVacatesPopped`).
- **PathFind.RequestQueue.CalculatePath.** It requires a unit that is not already queued and whose next-unit link is 0 wherever the source would otherwise read a stale link. Freshly created path units satisfy this, and callers never queue a unit twice. The source does not check it.
- **Direction inversion.** `NetInfo.InvertDirection` belongs to the game and is not part of this model's sources. It is assumed to be the bit formula that exchanges bits 1 and 2 and bits 4 and 8 and keeps the rest. `Net.InvertInvolution` and `Net.InvertSwapsBits` hold for that formula over every direction byte. On the eight named directions the formula agrees with the game's pairwise swap (`Net.InvertNamedDirections`); on unnamed bytes such as 4 the game's behaviour is not modelled.
- **Count width.** The 15-bit epoch wrap is modelled exactly. The 32-bit widths of lane locations appear only in `LocationBits` and `SlotBits`. The counters `queuedPathFindCount`, `bufferMax` and the position counters use unbounded integers, and their overflow is not modelled.
- **Flags.** The speed-limit storage is modelled as follows:
  - it is the `LaneSpeedFlags` map;
  - the fast per-segment array is a parameter;
  - `Flags.setLaneSpeedLimit`'s segment and lane-index bookkeeping is not modelled.
- **`GetCustomSpeedLimit(segment, dir)` and averages.** `GetCustomSpeedLimit(segment, dir)`, `GetAverageDefaultCustomSpeedLimit` and `GetAverageCustomSpeedLimit` are float averaging. `ReplaceProp` therefore takes the speed sign key for a direction as a parameter, so the `ToKmphPrecise` formatting is outside the model.
- **Other speed-limit entry points.** `FixCurrentSpeedLimits`, `ClearCurrentSpeedLimits`, `LoadData`/`SaveData`, the geometry observers and the debug dump are not part of this model; they depend on `SpeedLimit` constants and services not shown.
- **Rest of `OnBeforeLoadData`.** The collection of NetInfos from the prefab collection, the DLC filter and the sort by name are left out. The parent/child pass starts from the sorted main list, which becomes an input. Main NetInfos are required to have names, because the source calls `StartsWith` on them.
- **String handling.** Culture-sensitive `StartsWith` and `ToLower` are modelled as the ordinal prefix test and ASCII lower-casing.
- **Segment with missing info.** A created segment with a null `Info` is excluded by `requires`, because the source dereferences it before any check. So is a customisable segment whose `Info.m_lanes` is null when its lanes are read (`LanesReadable`): `GetCustomSpeedLimit(uint)` reads `m_lanes.Length` unchecked (SpeedLimitManager.cs line 199) and would throw.
- **`LoadProps` iteration order.** Dictionary iteration order in `LoadProps` does not matter, because every key is written once. The model loads keys in an unspecified order and proves the result independent of it.
- LaneProps.LanePropManager.OnAfterLoadData and LaneProps.LanePropManager.LoadProps require that the collection name is not yet in the table. The source never clears the table, and `Dictionary.Add` (LanePropManager.cs line 113) throws on a key already present. So a second `OnAfterLoadData` throws there; the model does not cover a repeated load.
- **`OnAfterLoadData` prefab filter.** The `PrefabInfo` type filter is left out; the list of props is an input.
- **LaneProps.ReplaceProp.** It requires the fallback collection to be present when the prop is a speed-limit sign, because the source's dictionary index throws otherwise.
- **Logging.** Logging and the exceptions it reports are not modelled. An exception during a path-find is the `ready = false` case of `CompleteCalculation`.

## Findings

| source | as written | input that shows it | evidently intended | confidence | as-written member | corrected member |
|---|---|---|---|---|---|---|
| TLM/TLM/Custom/PathFinding/NewFile1.cs:1091 | the index of a recorded slot within its bucket is computed as `num3 & -64`, which is the bucket's base slot (a multiple of 64), and compared with `m_bufferMin[bucket]`. In bucket 0 it is always 0; in bucket b > 0 it is never below `m_bufferMin`, so the test never refuses | window at bucket 0 with one entry popped (`bufferMin[0] = 1`) and a cheaper item for the lane queued at slot 1: refused although unpopped. Window at bucket 1 with slot 64 popped: accepted, and the popped slot is rewritten | `num3 & 63`, the slot's index within its bucket, so that a slot is stale exactly when it has already been popped | not executed | BucketQueue.StaleAsWritten, BucketQueue.AddAsWritten, PathFind.SearchBuffers.AddBufferItemAsWritten, BucketQueue.AsWrittenDropsQueuedImprovement, BucketQueue.AsWrittenRewritesSettledEntry, BucketQueue.AsWrittenNeverVacatesPopped, BucketQueue.StaleAsWrittenWitnesses | BucketQueue.Add, BucketQueue.AddKeepsBest |
