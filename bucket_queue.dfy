/** The search frontier of the path finder, as a value: 1024 buckets of 64 slots
    in one 65536-entry buffer, the per-bucket read and write cursors, the first
    and last buckets in use, and for every lane the packed (epoch, slot) word
    that says where its best entry of the current search lives, plus the
    position the lane was reached from.

    AddBufferItem (insert or decrease-key), one pop of the search loop, the epoch
    advance and the seeding that starts a search are functions on this value;
    the class in path_find.dfy runs them over arrays and is proved equal to them. */
module BucketQueue {
  import opened Net
  import opened Wrappers

  const BucketCount: int := 1024
  const BucketSize: int := 64
  const SlotCount: int := 65536
  const LaneCount: int := 262144
  /** The epoch counter is masked with 0x7FFF. */
  const EpochLimit: int := 0x8000
  /** What every lane location is reset to when the epoch wraps to 0: epoch
      0xFFFF, which no search ever uses. */
  const ResetLocation: nat := 0xFFFF0000
  const LocationLimit: int := 0x1_0000_0000

  /** One frontier entry: the position reached, its comparison cost, the
      distance and duration so far, its lane, the direction it may be left in
      and the lane types used on the way. */
  datatype BufferItem = BufferItem(
    position: Position,
    comparisonValue: real,
    methodDistance: real,
    duration: real,
    laneId: nat,
    direction: Direction,
    lanesUsed: set<LaneType>)

  // ---------------------------------------------------------------------
  // Address arithmetic. The source computes these with shifts and masks;
  // LocationBits and SlotBits show the two readings agree on the ranges used.
  // ---------------------------------------------------------------------

  /** bucket << 6 | index */
  function Slot(bucket: int, index: int): int
  {
    bucket * BucketSize + index
  }

  /** slot >> 6 */
  function BucketOf(slot: int): int
  {
    slot / BucketSize
  }

  /** slot & 63 */
  function IndexOf(slot: int): int
  {
    slot % BucketSize
  }

  /** epoch << 16 | slot */
  function Pack(epoch: nat, slot: nat): nat
  {
    epoch * 0x10000 + slot
  }

  /** location >> 16 */
  function EpochOf(location: nat): nat
  {
    location / 0x10000
  }

  /** location & 0xFFFF */
  function SlotOf(location: nat): nat
  {
    location % 0x10000
  }

  lemma SlotRoundTrip(bucket: int, index: int)
    requires 0 <= index < BucketSize
    ensures BucketOf(Slot(bucket, index)) == bucket && IndexOf(Slot(bucket, index)) == index
  {
  }

  lemma PackRoundTrip(epoch: nat, slot: nat)
    requires slot < 0x10000
    ensures EpochOf(Pack(epoch, slot)) == epoch && SlotOf(Pack(epoch, slot)) == slot
    ensures epoch < EpochLimit ==> Pack(epoch, slot) < LocationLimit
  {
  }

  /** On 32-bit words the shifts and masks that pack a lane location compute
      exactly Pack, EpochOf and SlotOf. */
  lemma LocationBits(epoch: bv32, slot: bv32)
    requires epoch < 0x8000 && slot < 0x10000
    ensures (epoch << 16) | slot == epoch * 0x10000 + slot
    ensures ((epoch << 16) | slot) >> 16 == epoch && ((epoch << 16) | slot) & 0xFFFF == slot
  {
  }

  /** On 32-bit words the shifts and masks that address a slot compute exactly
      Slot, BucketOf and IndexOf, and `slot & -64` is the base slot of the
      slot's bucket, not its index. */
  lemma SlotBits(bucket: bv32, index: bv32)
    requires bucket < 1024 && index < 64
    ensures (bucket << 6) | index == bucket * 64 + index
    ensures ((bucket << 6) | index) >> 6 == bucket && ((bucket << 6) | index) & 63 == index
    ensures ((bucket << 6) | index) & 0xFFFF_FFC0 == bucket * 64
  {
  }

  // ---------------------------------------------------------------------
  // The bucket of a cost: Mathf.RoundToInt(cost * 1024), rounding halves to
  // the even neighbour as Math.Round does.
  // ---------------------------------------------------------------------

  function RoundToInt(x: real): (r: int)
    ensures x - 0.5 <= r as real <= x + 0.5
  {
    var f := x.Floor;
    var frac := x - f as real;
    if frac < 0.5 then f
    else if frac > 0.5 then f + 1
    else if f % 2 == 0 then f
    else f + 1
  }

  /** Rounding never reverses an order. */
  lemma RoundToIntMonotone(x: real, y: real)
    requires x <= y
    ensures RoundToInt(x) <= RoundToInt(y)
  {
    var fx, fy := x.Floor, y.Floor;
    assert fx <= fy;
    if fx == fy {
      assert x - fx as real <= y - fy as real;
    } else {
      assert RoundToInt(x) <= fx + 1 <= fy <= RoundToInt(y);
    }
  }

  function BucketIndex(cost: real): int
  {
    RoundToInt(cost * 1024.0)
  }

  /** A cheaper cost never lands in a later bucket. */
  lemma BucketIndexMonotone(a: real, b: real)
    requires a <= b
    ensures BucketIndex(a) <= BucketIndex(b)
  {
    RoundToIntMonotone(a * 1024.0, b * 1024.0);
  }

  function Max(a: int, b: int): int
  {
    if a >= b then a else b
  }

  // ---------------------------------------------------------------------
  // The frontier and its invariant
  // ---------------------------------------------------------------------

  datatype Frontier = Frontier(
    buffer: seq<BufferItem>,
    bufferMin: seq<int>,
    bufferMax: seq<int>,
    minPos: int,
    maxPos: int,
    laneLocation: seq<nat>,
    laneTarget: seq<Position>,
    epoch: nat)

  predicate WellFormed(d: Frontier)
  {
    && |d.buffer| == SlotCount
    && |d.bufferMin| == BucketCount
    && |d.bufferMax| == BucketCount
    && |d.laneLocation| == LaneCount
    && |d.laneTarget| == LaneCount
  }

  /** A slot between its bucket's read and write cursors: queued, not yet popped. */
  predicate IsLive(d: Frontier, s: int)
    requires WellFormed(d) && 0 <= s < SlotCount
  {
    d.bufferMin[BucketOf(s)] <= IndexOf(s) <= d.bufferMax[BucketOf(s)]
  }

  /** A slot the search loop has passed: in a bucket before the current one, or
      before the read cursor of the current one. */
  predicate IsPopped(d: Frontier, s: int)
    requires WellFormed(d) && 0 <= s < SlotCount
  {
    BucketOf(s) < d.minPos || (BucketOf(s) == d.minPos && IndexOf(s) < d.bufferMin[BucketOf(s)])
  }

  /** The lane was reached in the current search. */
  predicate IsRecorded(d: Frontier, lane: int)
    requires WellFormed(d) && 0 <= lane < LaneCount
  {
    EpochOf(d.laneLocation[lane]) == d.epoch
  }

  /** The slot a recorded lane points to holds that lane's entry, queued or popped. */
  predicate PointsHome(d: Frontier, lane: int)
    requires WellFormed(d) && 0 <= lane < LaneCount
  {
    var s := SlotOf(d.laneLocation[lane]);
    d.buffer[s].laneId == lane && (IsPopped(d, s) || IsLive(d, s))
  }

  ghost predicate BucketsOk(d: Frontier)
    requires WellFormed(d)
  {
    && 0 <= d.minPos <= BucketCount
    && -1 <= d.maxPos < BucketCount
    && (forall b :: 0 <= b < BucketCount ==> 0 <= d.bufferMin[b] <= d.bufferMax[b] + 1 && d.bufferMax[b] < BucketSize)
    && (forall b :: 0 <= b < BucketCount && b < d.minPos ==> d.bufferMin[b] > d.bufferMax[b])
    && (forall b :: d.minPos < b < BucketCount ==> d.bufferMin[b] == 0)
    && (forall b :: d.maxPos < b < BucketCount ==> d.bufferMax[b] == -1)
  }

  /** Every location is a 32-bit word whose epoch is not from a later search. */
  ghost predicate EpochsOk(d: Frontier)
    requires WellFormed(d)
  {
    && d.epoch < EpochLimit
    && forall l :: 0 <= l < LaneCount ==>
         && d.laneLocation[l] < LocationLimit
         && (EpochOf(d.laneLocation[l]) <= d.epoch || EpochOf(d.laneLocation[l]) == 0xFFFF)
  }

  /** Every recorded lane, except possibly `except`, points home. */
  ghost predicate HomesOk(d: Frontier, except: int)
    requires WellFormed(d)
  {
    forall l :: 0 <= l < LaneCount && l != except && IsRecorded(d, l) ==> PointsHome(d, l)
  }

  /** Every queued entry sits in its cost's bucket or a later one. */
  ghost predicate EntriesOk(d: Frontier)
    requires WellFormed(d)
  {
    forall s :: 0 <= s < SlotCount && IsLive(d, s) ==> BucketIndex(d.buffer[s].comparisonValue) <= BucketOf(s)
  }

  /** Every entry in the buffer names an existing lane. */
  ghost predicate LanesOk(d: Frontier)
    requires WellFormed(d)
  {
    forall s :: 0 <= s < SlotCount ==> d.buffer[s].laneId < LaneCount
  }

  /** Outside bucket 0, where the end items are queued unrecorded, every queued
      entry is the one its lane's location points to, and `except` has none. */
  ghost predicate OwnersOk(d: Frontier, except: int)
    requires WellFormed(d)
  {
    forall s :: 0 <= s < SlotCount && IsLive(d, s) && 0 < BucketOf(s) ==>
      var l := d.buffer[s].laneId;
      l != except && l < LaneCount && IsRecorded(d, l) && SlotOf(d.laneLocation[l]) == s
  }

  ghost predicate Inv(d: Frontier)
  {
    && WellFormed(d)
    && BucketsOk(d)
    && EpochsOk(d)
    && HomesOk(d, -1)
    && EntriesOk(d)
    && LanesOk(d)
    && OwnersOk(d, -1)
  }

  /** What each slot queues: its entry when it is live, nothing otherwise. */
  ghost function LiveSlots(d: Frontier): (r: seq<multiset<BufferItem>>)
    requires WellFormed(d)
    ensures |r| == SlotCount
  {
    seq(SlotCount, s requires 0 <= s < SlotCount => if IsLive(d, s) then multiset{d.buffer[s]} else multiset{})
  }

  /** The union of m[k..]. */
  ghost function SumFrom(m: seq<multiset<BufferItem>>, k: int): multiset<BufferItem>
    requires 0 <= k <= |m|
    decreases |m| - k
  {
    if k == |m| then multiset{} else m[k] + SumFrom(m, k + 1)
  }

  /** The entries queued in the frontier. */
  ghost function LiveItems(d: Frontier): multiset<BufferItem>
    requires WellFormed(d)
  {
    SumFrom(LiveSlots(d), 0)
  }

  lemma {:induction false} SumAfter(m: seq<multiset<BufferItem>>, n: seq<multiset<BufferItem>>, u: int, k: int)
    requires |m| == |n| && 0 <= u < k <= |m|
    requires forall s :: 0 <= s < |m| && s != u ==> m[s] == n[s]
    ensures SumFrom(m, k) == SumFrom(n, k)
    decreases |m| - k
  {
    if k < |m| {
      SumAfter(m, n, u, k + 1);
    }
  }

  /** Two sequences that differ only at `u` have unions that differ by what `u` holds. */
  lemma {:induction false} SumOneSlot(m: seq<multiset<BufferItem>>, n: seq<multiset<BufferItem>>, u: int, k: int)
    requires |m| == |n| && 0 <= k <= u < |m|
    requires forall s :: 0 <= s < |m| && s != u ==> m[s] == n[s]
    ensures SumFrom(n, k) + m[u] == SumFrom(m, k) + n[u]
    decreases |m| - k
  {
    if k == u {
      SumAfter(m, n, u, k + 1);
      UnionSwap(n[u], SumFrom(n, k + 1), m[u]);
    } else {
      SumOneSlot(m, n, u, k + 1);
      UnionAssoc(n[k], SumFrom(n, k + 1), m[u]);
      UnionAssoc(m[k], SumFrom(m, k + 1), n[u]);
    }
  }

  lemma UnionSwap(a: multiset<BufferItem>, b: multiset<BufferItem>, c: multiset<BufferItem>)
    ensures a + b + c == c + b + a
  {
  }

  lemma UnionCancel(a: multiset<BufferItem>, b: multiset<BufferItem>, c: multiset<BufferItem>)
    requires a + c == b + c
    ensures a == b
  {
    assert forall x :: a[x] == (a + c)[x] - c[x];
  }

  /** Trading one element for another, written by subtraction. */
  lemma TradeOne(a: multiset<BufferItem>, b: multiset<BufferItem>, o: BufferItem, i: BufferItem)
    requires a + multiset{o} == b + multiset{i} && o != i
    ensures a == b - multiset{o} + multiset{i}
  {
    assert (a + multiset{o})[o] == b[o];
    assert forall x :: a[x] == (a + multiset{o})[x] - multiset{o}[x];
  }

  lemma UnionComm(a: multiset<BufferItem>, b: multiset<BufferItem>, c: multiset<BufferItem>)
    ensures a + b + c == a + c + b
  {
  }

  lemma UnionAssoc(a: multiset<BufferItem>, b: multiset<BufferItem>, c: multiset<BufferItem>)
    ensures a + b + c == a + (b + c)
  {
  }

  /** Frontiers that queue the same entries at every slot but `u` queue the same
      entries apart from what `u` queues. */
  lemma LiveOneSlot(d: Frontier, r: Frontier, u: int)
    requires WellFormed(d) && WellFormed(r) && 0 <= u < SlotCount
    requires forall s :: 0 <= s < SlotCount && s != u ==> LiveSlots(r)[s] == LiveSlots(d)[s]
    ensures LiveItems(r) + LiveSlots(d)[u] == LiveItems(d) + LiveSlots(r)[u]
  {
    SumOneSlot(LiveSlots(d), LiveSlots(r), u, 0);
  }




  /** Every lane but `lane` keeps its target and whether it is recorded, and a
      recorded one still points at the same entry, queued or popped as before. */
  ghost predicate OthersKept(d: Frontier, r: Frontier, lane: int)
    requires WellFormed(d) && WellFormed(r)
  {
    forall l :: 0 <= l < LaneCount && l != lane ==>
      && r.laneTarget[l] == d.laneTarget[l]
      && IsRecorded(r, l) == IsRecorded(d, l)
      && (IsRecorded(d, l) ==>
            && r.buffer[SlotOf(r.laneLocation[l])] == d.buffer[SlotOf(d.laneLocation[l])]
            && IsLive(r, SlotOf(r.laneLocation[l])) == IsLive(d, SlotOf(d.laneLocation[l])))
  }

  lemma OthersKeptTrans(d: Frontier, v: Frontier, r: Frontier, lane: int)
    requires WellFormed(d) && WellFormed(v) && WellFormed(r)
    requires OthersKept(d, v, lane) && OthersKept(v, r, lane)
    ensures OthersKept(d, r, lane)
  {
  }

  // ---------------------------------------------------------------------
  // AddBufferItem
  // ---------------------------------------------------------------------

  /** The first bucket from `b` on whose write cursor is not at the last slot,
      or BucketCount when all of them are full. */
  function FirstNonFull(maxs: seq<int>, b: int): (r: int)
    requires |maxs| == BucketCount && 0 <= b <= BucketCount
    ensures b <= r <= BucketCount
    ensures r < BucketCount ==> maxs[r] != BucketSize - 1
    ensures forall j :: b <= j < r ==> maxs[j] == BucketSize - 1
    decreases BucketCount - b
  {
    if b == BucketCount then b
    else if maxs[b] != BucketSize - 1 then b
    else FirstNonFull(maxs, b + 1)
  }

  /** Whether placing from bucket `bucket` on finds a free slot. */
  predicate Places(d: Frontier, bucket: int)
    requires WellFormed(d)
  {
    0 <= bucket < BucketCount && FirstNonFull(d.bufferMax, bucket) < BucketCount
  }

  /** Appends the item at the next free slot of bucket `b`, records that slot
      under the current epoch and remembers the target. */
  function Append(d: Frontier, item: BufferItem, target: Position, b: int): (r: Frontier)
    requires WellFormed(d) && item.laneId < LaneCount
    requires 0 <= b < BucketCount && -1 <= d.bufferMax[b] < BucketSize - 1
    ensures WellFormed(r)
  {
    var k := d.bufferMax[b] + 1;
    var s := Slot(b, k);
    d.(buffer := d.buffer[s := item],
       bufferMax := d.bufferMax[b := k],
       maxPos := if b > d.maxPos then b else d.maxPos,
       laneLocation := d.laneLocation[item.laneId := Pack(d.epoch, s)],
       laneTarget := d.laneTarget[item.laneId := target])
  }

  /** The tail of AddBufferItem: append the item to the first non-full bucket
      from `bucket` on. An item whose bucket is out of range, or for which every
      later bucket is full, is dropped. */
  function Place(d: Frontier, item: BufferItem, target: Position, bucket: int): (r: Frontier)
    requires WellFormed(d) && item.laneId < LaneCount
    requires forall b :: 0 <= b < BucketCount ==> -1 <= d.bufferMax[b] < BucketSize
    ensures WellFormed(r)
  {
    if bucket < 0 || bucket >= BucketCount then d
    else
      var b := FirstNonFull(d.bufferMax, bucket);
      if b == BucketCount then d
      else Append(d, item, target, b)
  }

  /** Frees the slot a location points to by moving the last entry of that
      slot's bucket into it (the moved entry's lane is repointed) and pulling
      the bucket's write cursor back by one. */
  function Vacate(d: Frontier, location: nat): (r: Frontier)
    requires WellFormed(d) && BucketsOk(d) && LanesOk(d)
    requires 0 <= d.bufferMax[BucketOf(SlotOf(location))]
    ensures WellFormed(r)
    ensures forall b :: 0 <= b < BucketCount ==> -1 <= r.bufferMax[b] < BucketSize
  {
    var s := SlotOf(location);
    var b := BucketOf(s);
    var t := Slot(b, d.bufferMax[b]);
    var moved := d.buffer[t];
    d.(bufferMax := d.bufferMax[b := d.bufferMax[b] - 1],
       laneLocation := d.laneLocation[moved.laneId := location],
       buffer := d.buffer[s := moved])
  }

  /** AddBufferItem with the staleness test on the slot's index in its bucket.
      A lane reached before in this search keeps its entry unless the item is
      strictly cheaper and the entry has not been popped; a cheaper item that
      rounds to the entry's bucket overwrites it in place, otherwise the entry's
      slot is vacated and the item is placed afresh. */
  function Add(d: Frontier, item: BufferItem, target: Position): (r: Frontier)
    requires Inv(d) && item.laneId < LaneCount
    ensures WellFormed(r)
    ensures r.minPos == d.minPos && r.bufferMin == d.bufferMin && r.epoch == d.epoch
  {
    var location := d.laneLocation[item.laneId];
    var s := SlotOf(location);
    var bucket := Max(BucketIndex(item.comparisonValue), d.minPos);
    if EpochOf(location) != d.epoch then Place(d, item, target, bucket)
    else if item.comparisonValue >= d.buffer[s].comparisonValue then d
    else if IsPopped(d, s) then d
    else if bucket == BucketOf(s) then
      d.(buffer := d.buffer[s := item], laneTarget := d.laneTarget[item.laneId := target])
    else
      assert PointsHome(d, item.laneId);
      Place(Vacate(d, location), item, target, bucket)
  }

  /** What a successful Place leaves behind: the invariant, and the lane recorded
      at a queued slot holding the item, in the item's bucket or later. */
  ghost predicate PlacedWell(r: Frontier, item: BufferItem, target: Position, bucket: int)
  {
    && Inv(r)
    && item.laneId < LaneCount
    && IsRecorded(r, item.laneId)
    && var s := SlotOf(r.laneLocation[item.laneId]);
       && r.buffer[s] == item
       && IsLive(r, s)
       && bucket <= BucketOf(s)
       && r.laneTarget[item.laneId] == target
  }

  /** The slot Append writes to was neither queued nor popped. */
  lemma AppendSlotFree(d: Frontier, b: int)
    requires WellFormed(d) && BucketsOk(d)
    requires 0 <= b < BucketCount && d.bufferMax[b] < BucketSize - 1 && d.minPos <= b
    ensures var s := Slot(b, d.bufferMax[b] + 1);
      0 <= s < SlotCount && !IsLive(d, s) && !IsPopped(d, s)
      && BucketOf(s) == b && IndexOf(s) == d.bufferMax[b] + 1
  {
    SlotRoundTrip(b, d.bufferMax[b] + 1);
  }

  lemma AppendKeepsBuckets(d: Frontier, item: BufferItem, target: Position, b: int)
    requires WellFormed(d) && BucketsOk(d) && item.laneId < LaneCount
    requires 0 <= b < BucketCount && d.bufferMax[b] < BucketSize - 1 && d.minPos <= b
    ensures BucketsOk(Append(d, item, target, b))
  {
  }

  lemma AppendKeepsEpochs(d: Frontier, item: BufferItem, target: Position, b: int)
    requires WellFormed(d) && BucketsOk(d) && EpochsOk(d) && item.laneId < LaneCount
    requires 0 <= b < BucketCount && d.bufferMax[b] < BucketSize - 1
    ensures EpochsOk(Append(d, item, target, b))
    ensures IsRecorded(Append(d, item, target, b), item.laneId)
    ensures SlotOf(Append(d, item, target, b).laneLocation[item.laneId]) == Slot(b, d.bufferMax[b] + 1)
  {
    var r := Append(d, item, target, b);
    PackRoundTrip(d.epoch, Slot(b, d.bufferMax[b] + 1));
    forall l | 0 <= l < LaneCount
      ensures r.laneLocation[l] < LocationLimit
      ensures EpochOf(r.laneLocation[l]) <= r.epoch || EpochOf(r.laneLocation[l]) == 0xFFFF
    {
    }
  }

  lemma AppendKeepsHomes(d: Frontier, item: BufferItem, target: Position, b: int, except: int)
    requires WellFormed(d) && BucketsOk(d) && EpochsOk(d) && HomesOk(d, except) && item.laneId < LaneCount
    requires except == -1 || except == item.laneId
    requires 0 <= b < BucketCount && d.bufferMax[b] < BucketSize - 1 && d.minPos <= b
    ensures HomesOk(Append(d, item, target, b), -1)
  {
    var r := Append(d, item, target, b);
    var s := Slot(b, d.bufferMax[b] + 1);
    AppendSlotFree(d, b);
    AppendKeepsEpochs(d, item, target, b);
    assert r.buffer == d.buffer[s := item];
    forall l | 0 <= l < LaneCount && IsRecorded(r, l)
      ensures PointsHome(r, l)
    {
      if l != item.laneId {
        var u := SlotOf(d.laneLocation[l]);
        assert PointsHome(d, l);
        assert u != s;
        assert IsPopped(d, u) ==> IsPopped(r, u);
        assert IsLive(d, u) ==> IsLive(r, u);
      }
    }
  }

  lemma AppendKeepsEntries(d: Frontier, item: BufferItem, target: Position, b: int)
    requires WellFormed(d) && BucketsOk(d) && EntriesOk(d) && LanesOk(d) && item.laneId < LaneCount
    requires 0 <= b < BucketCount && d.bufferMax[b] < BucketSize - 1 && d.minPos <= b
    requires BucketIndex(item.comparisonValue) <= b
    ensures EntriesOk(Append(d, item, target, b)) && LanesOk(Append(d, item, target, b))
    ensures IsLive(Append(d, item, target, b), Slot(b, d.bufferMax[b] + 1))
  {
    var r := Append(d, item, target, b);
    var s := Slot(b, d.bufferMax[b] + 1);
    AppendSlotFree(d, b);
    assert r.buffer == d.buffer[s := item];
    forall u | 0 <= u < SlotCount && IsLive(r, u)
      ensures BucketIndex(r.buffer[u].comparisonValue) <= BucketOf(u)
    {
      if u != s {
        assert IsLive(d, u);
      }
    }
    forall u | 0 <= u < SlotCount
      ensures r.buffer[u].laneId < LaneCount
    {
    }
  }

  /** Append changes no slot but the one it writes. */
  lemma AppendSlots(d: Frontier, item: BufferItem, target: Position, b: int)
    requires WellFormed(d) && BucketsOk(d) && item.laneId < LaneCount
    requires 0 <= b < BucketCount && d.bufferMax[b] < BucketSize - 1 && d.minPos <= b
    ensures var r := Append(d, item, target, b);
      var u := Slot(b, d.bufferMax[b] + 1);
      forall s :: 0 <= s < SlotCount && s != u ==> IsLive(r, s) == IsLive(d, s) && r.buffer[s] == d.buffer[s]
  {
    var r := Append(d, item, target, b);
    var u := Slot(b, d.bufferMax[b] + 1);
    forall s | 0 <= s < SlotCount && s != u
      ensures IsLive(r, s) == IsLive(d, s) && r.buffer[s] == d.buffer[s]
    {
      assert s == Slot(BucketOf(s), IndexOf(s));
    }
  }

  /** Append queues exactly one more entry, the item. */
  lemma AppendLive(d: Frontier, item: BufferItem, target: Position, b: int)
    requires WellFormed(d) && BucketsOk(d) && item.laneId < LaneCount
    requires 0 <= b < BucketCount && d.bufferMax[b] < BucketSize - 1 && d.minPos <= b
    ensures LiveItems(Append(d, item, target, b)) == LiveItems(d) + multiset{item}
  {
    var r := Append(d, item, target, b);
    var u := Slot(b, d.bufferMax[b] + 1);
    AppendSlotFree(d, b);
    AppendSlots(d, item, target, b);
    assert IsLive(r, u) && r.buffer[u] == item;
    LiveOneSlot(d, r, u);
  }

  /** After Append every queued entry outside bucket 0 is still its lane's
      recorded one, the item's included, provided the item's lane had none. */
  lemma AppendKeepsOwners(d: Frontier, item: BufferItem, target: Position, b: int)
    requires WellFormed(d) && BucketsOk(d) && EpochsOk(d) && item.laneId < LaneCount
    requires OwnersOk(d, item.laneId)
    requires 0 <= b < BucketCount && d.bufferMax[b] < BucketSize - 1 && d.minPos <= b
    ensures OwnersOk(Append(d, item, target, b), -1)
  {
    var r := Append(d, item, target, b);
    var u := Slot(b, d.bufferMax[b] + 1);
    AppendSlotFree(d, b);
    AppendSlots(d, item, target, b);
    AppendKeepsEpochs(d, item, target, b);
    forall s | 0 <= s < SlotCount && IsLive(r, s) && 0 < BucketOf(s)
      ensures var l := r.buffer[s].laneId;
        l != -1 && l < LaneCount && IsRecorded(r, l) && SlotOf(r.laneLocation[l]) == s
    {
      if s != u {
        assert IsLive(d, s);
        var l := d.buffer[s].laneId;
        assert l != item.laneId;
      }
    }
  }

  /** Append leaves every other lane as it was. */
  lemma AppendKeepsOthers(d: Frontier, item: BufferItem, target: Position, b: int, except: int)
    requires WellFormed(d) && BucketsOk(d) && HomesOk(d, except) && item.laneId < LaneCount
    requires except == -1 || except == item.laneId
    requires 0 <= b < BucketCount && d.bufferMax[b] < BucketSize - 1 && d.minPos <= b
    ensures OthersKept(d, Append(d, item, target, b), item.laneId)
  {
    var r := Append(d, item, target, b);
    var u := Slot(b, d.bufferMax[b] + 1);
    AppendSlotFree(d, b);
    AppendSlots(d, item, target, b);
    forall l | 0 <= l < LaneCount && l != item.laneId && IsRecorded(d, l)
      ensures SlotOf(d.laneLocation[l]) != u
    {
      assert PointsHome(d, l);
    }
  }

  /** Place keeps the invariant and records the item, from an invariant that may
      be broken for the item's own lane only, provided the item goes no earlier
      than the current bucket and its cost's bucket. */
  lemma PlaceKeepsInv(d: Frontier, item: BufferItem, target: Position, bucket: int, except: int)
    requires WellFormed(d) && BucketsOk(d) && EpochsOk(d) && HomesOk(d, except) && EntriesOk(d) && LanesOk(d)
    requires item.laneId < LaneCount && (except == -1 || except == item.laneId)
    requires d.minPos <= bucket && BucketIndex(item.comparisonValue) <= bucket
    requires OwnersOk(d, item.laneId)
    ensures Places(d, bucket) ==> PlacedWell(Place(d, item, target, bucket), item, target, bucket)
    ensures Places(d, bucket) ==> LiveItems(Place(d, item, target, bucket)) == LiveItems(d) + multiset{item}
    ensures Places(d, bucket) ==> OthersKept(d, Place(d, item, target, bucket), item.laneId)
    ensures !Places(d, bucket) ==> Place(d, item, target, bucket) == d
  {
    if Places(d, bucket) {
      var b := FirstNonFull(d.bufferMax, bucket);
      var r := Append(d, item, target, b);
      assert Place(d, item, target, bucket) == r;
      AppendSlotFree(d, b);
      AppendKeepsBuckets(d, item, target, b);
      AppendKeepsEpochs(d, item, target, b);
      AppendKeepsHomes(d, item, target, b, except);
      AppendKeepsEntries(d, item, target, b);
      AppendKeepsOwners(d, item, target, b);
      AppendLive(d, item, target, b);
      AppendKeepsOthers(d, item, target, b, except);
      assert r.buffer[Slot(b, d.bufferMax[b] + 1)] == item;
    }
  }

  /** Vacating the queued slot of a recorded lane keeps the invariant for every
      other lane, leaves the slot's bucket with room, and changes neither the
      cursors of the search nor the epoch. */
  lemma VacateKeepsInv(d: Frontier, lane: int)
    requires Inv(d) && 0 <= lane < LaneCount && IsRecorded(d, lane)
    requires !IsPopped(d, SlotOf(d.laneLocation[lane]))
    ensures 0 <= d.bufferMax[BucketOf(SlotOf(d.laneLocation[lane]))]
    ensures var r := Vacate(d, d.laneLocation[lane]);
      && BucketsOk(r) && EpochsOk(r) && HomesOk(r, lane) && EntriesOk(r) && LanesOk(r)
      && r.bufferMax[BucketOf(SlotOf(d.laneLocation[lane]))] < BucketSize - 1
      && r.minPos == d.minPos && r.bufferMin == d.bufferMin && r.epoch == d.epoch
      && r.laneTarget == d.laneTarget
  {
    var location := d.laneLocation[lane];
    var s := SlotOf(location);
    var b := BucketOf(s);
    assert PointsHome(d, lane);
    assert IsLive(d, s);
    var t := Slot(b, d.bufferMax[b]);
    SlotRoundTrip(b, d.bufferMax[b]);
    assert IsLive(d, t);
    var moved := d.buffer[t];
    var r := Vacate(d, location);
    assert r.bufferMax == d.bufferMax[b := d.bufferMax[b] - 1];
    assert r.buffer == d.buffer[s := moved];
    assert r.laneLocation == d.laneLocation[moved.laneId := location];
    assert BucketsOk(r);
    forall l | 0 <= l < LaneCount
      ensures r.laneLocation[l] < LocationLimit
      ensures EpochOf(r.laneLocation[l]) <= r.epoch || EpochOf(r.laneLocation[l]) == 0xFFFF
    {
    }
    assert EpochsOk(r);
    forall l | 0 <= l < LaneCount && l != lane && IsRecorded(r, l)
      ensures PointsHome(r, l)
    {
      if l == moved.laneId {
        assert SlotOf(r.laneLocation[l]) == s;
        assert s != t;
        assert IsLive(r, s);
      } else {
        var u := SlotOf(d.laneLocation[l]);
        assert PointsHome(d, l);
        assert u != s && u != t;
        assert IsPopped(d, u) ==> IsPopped(r, u);
        assert IsLive(d, u) ==> IsLive(r, u);
      }
    }
    forall u | 0 <= u < SlotCount && IsLive(r, u)
      ensures BucketIndex(r.buffer[u].comparisonValue) <= BucketOf(u)
    {
      if u == s {
        assert BucketIndex(d.buffer[t].comparisonValue) <= BucketOf(t);
      } else {
        assert IsLive(d, u);
      }
    }
    forall u | 0 <= u < SlotCount
      ensures r.buffer[u].laneId < LaneCount
    {
    }
  }

  /** Vacate unqueues the last slot of the bucket and no other. */
  lemma VacateSlots(d: Frontier, location: nat)
    requires WellFormed(d) && BucketsOk(d) && LanesOk(d)
    requires 0 <= d.bufferMax[BucketOf(SlotOf(location))] && IsLive(d, SlotOf(location))
    ensures var b := BucketOf(SlotOf(location));
      var t := Slot(b, d.bufferMax[b]);
      var r := Vacate(d, location);
      && 0 <= t < SlotCount && BucketOf(t) == b && IsLive(d, t) && !IsLive(r, t)
      && forall u :: 0 <= u < SlotCount && u != t ==> IsLive(r, u) == IsLive(d, u)
  {
    var b := BucketOf(SlotOf(location));
    var t := Slot(b, d.bufferMax[b]);
    SlotRoundTrip(b, d.bufferMax[b]);
    var r := Vacate(d, location);
    assert r.bufferMax == d.bufferMax[b := d.bufferMax[b] - 1];
    forall u | 0 <= u < SlotCount && u != t
      ensures IsLive(r, u) == IsLive(d, u)
    {
      assert u == Slot(BucketOf(u), IndexOf(u));
    }
  }

  /** Overwriting a queued slot swaps its entry in the queue. */
  lemma OverwriteLive(d: Frontier, r: Frontier, s: int)
    requires WellFormed(d) && WellFormed(r) && 0 <= s < SlotCount && IsLive(d, s)
    requires r.buffer == d.buffer[s := r.buffer[s]] && r.bufferMin == d.bufferMin && r.bufferMax == d.bufferMax
    ensures LiveItems(r) + multiset{d.buffer[s]} == LiveItems(d) + multiset{r.buffer[s]}
  {
    forall u | 0 <= u < SlotCount && u != s
      ensures LiveSlots(r)[u] == LiveSlots(d)[u]
    {
    }
    LiveOneSlot(d, r, s);
  }

  /** Pulling a bucket's write cursor back by one unqueues its last entry. */
  lemma DropLastLive(d: Frontier, r: Frontier, b: int)
    requires WellFormed(d) && WellFormed(r) && BucketsOk(d) && 0 <= b < BucketCount
    requires d.bufferMin[b] <= d.bufferMax[b]
    requires r.buffer == d.buffer && r.bufferMin == d.bufferMin && r.bufferMax == d.bufferMax[b := d.bufferMax[b] - 1]
    ensures 0 <= Slot(b, d.bufferMax[b]) < SlotCount
    ensures LiveItems(r) + multiset{d.buffer[Slot(b, d.bufferMax[b])]} == LiveItems(d)
  {
    var t := Slot(b, d.bufferMax[b]);
    SlotRoundTrip(b, d.bufferMax[b]);
    forall u | 0 <= u < SlotCount && u != t
      ensures LiveSlots(r)[u] == LiveSlots(d)[u]
    {
      assert u == Slot(BucketOf(u), IndexOf(u));
      assert IsLive(r, u) == IsLive(d, u);
    }
    LiveOneSlot(d, r, t);
  }

  /** Vacating a queued slot takes exactly its entry out of the queue. */
  lemma VacateLive(d: Frontier, location: nat)
    requires WellFormed(d) && BucketsOk(d) && LanesOk(d)
    requires 0 <= d.bufferMax[BucketOf(SlotOf(location))] && IsLive(d, SlotOf(location))
    ensures LiveItems(Vacate(d, location)) + multiset{d.buffer[SlotOf(location)]} == LiveItems(d)
  {
    var s := SlotOf(location);
    var b := BucketOf(s);
    var t := Slot(b, d.bufferMax[b]);
    var moved := d.buffer[t];
    var r := Vacate(d, location);
    var d1 := d.(buffer := d.buffer[s := moved]);
    OverwriteLive(d, d1, s);
    DropLastLive(d1, r, b);
    var one, two := LiveItems(d1), LiveItems(r);
    assert one + multiset{d.buffer[s]} == LiveItems(d) + multiset{moved};
    assert two + multiset{moved} == one;
    UnionComm(two, multiset{d.buffer[s]}, multiset{moved});
    UnionCancel(two + multiset{d.buffer[s]}, LiveItems(d), multiset{moved});
  }

  /** What Vacate does to the lane locations when a recorded lane's queued slot
      outside bucket 0 is vacated: the lane of the moved entry, which pointed
      at the bucket's last slot, now points at the vacated one. */
  lemma VacateMoves(d: Frontier, lane: int)
    requires Inv(d) && 0 <= lane < LaneCount && IsRecorded(d, lane)
    requires !IsPopped(d, SlotOf(d.laneLocation[lane])) && 0 < BucketOf(SlotOf(d.laneLocation[lane]))
    ensures var s := SlotOf(d.laneLocation[lane]);
      var b := BucketOf(s);
      var t := Slot(b, d.bufferMax[b]);
      var m := d.buffer[t].laneId;
      var r := Vacate(d, d.laneLocation[lane]);
      && 0 <= d.bufferMax[b] && IsLive(d, s) && d.buffer[s].laneId == lane
      && 0 <= t < SlotCount && BucketOf(t) == b && IsLive(d, t) && !IsLive(r, t)
      && (forall u :: 0 <= u < SlotCount && u != t ==> IsLive(r, u) == IsLive(d, u))
      && r.buffer == d.buffer[s := d.buffer[t]]
      && r.laneLocation == d.laneLocation[m := d.laneLocation[lane]]
      && (s != t ==> m != lane && IsRecorded(d, m) && SlotOf(d.laneLocation[m]) == t)
  {
    var s := SlotOf(d.laneLocation[lane]);
    assert PointsHome(d, lane);
    assert IsLive(d, s);
    VacateSlots(d, d.laneLocation[lane]);
  }

  /** After the vacate every queued entry outside bucket 0 is still its lane's
      recorded one, and the vacated lane has none there. */
  lemma VacateOwners(d: Frontier, lane: int)
    requires Inv(d) && 0 <= lane < LaneCount && IsRecorded(d, lane)
    requires !IsPopped(d, SlotOf(d.laneLocation[lane])) && 0 < BucketOf(SlotOf(d.laneLocation[lane]))
    ensures 0 <= d.bufferMax[BucketOf(SlotOf(d.laneLocation[lane]))]
    ensures OwnersOk(Vacate(d, d.laneLocation[lane]), lane)
  {
    VacateMoves(d, lane);
    var s := SlotOf(d.laneLocation[lane]);
    var r := Vacate(d, d.laneLocation[lane]);
    forall u | 0 <= u < SlotCount && IsLive(r, u) && 0 < BucketOf(u)
      ensures var l := r.buffer[u].laneId;
        l != lane && l < LaneCount && IsRecorded(r, l) && SlotOf(r.laneLocation[l]) == u
    {
      if u != s {
        var l := d.buffer[u].laneId;
        assert SlotOf(d.laneLocation[l]) == u;
      }
    }
  }

  /** The vacate leaves every other lane as it was. */
  lemma VacateOthers(d: Frontier, lane: int)
    requires Inv(d) && 0 <= lane < LaneCount && IsRecorded(d, lane)
    requires !IsPopped(d, SlotOf(d.laneLocation[lane])) && 0 < BucketOf(SlotOf(d.laneLocation[lane]))
    ensures 0 <= d.bufferMax[BucketOf(SlotOf(d.laneLocation[lane]))]
    ensures OthersKept(d, Vacate(d, d.laneLocation[lane]), lane)
  {
    VacateMoves(d, lane);
    var r := Vacate(d, d.laneLocation[lane]);
    forall l | 0 <= l < LaneCount && l != lane && IsRecorded(d, l)
      ensures r.buffer[SlotOf(r.laneLocation[l])] == d.buffer[SlotOf(d.laneLocation[l])]
      ensures IsLive(r, SlotOf(r.laneLocation[l])) == IsLive(d, SlotOf(d.laneLocation[l]))
    {
      assert PointsHome(d, l);
    }
  }

  /** Vacating the queued slot of a recorded lane outside bucket 0 removes that
      lane's entry from the queue and nothing else: the moved entry's lane still
      points at it, every other lane is untouched, and the vacated lane has no
      queued entry outside bucket 0 any more. */
  lemma VacateKeepsOwners(d: Frontier, lane: int)
    requires Inv(d) && 0 <= lane < LaneCount && IsRecorded(d, lane)
    requires !IsPopped(d, SlotOf(d.laneLocation[lane])) && 0 < BucketOf(SlotOf(d.laneLocation[lane]))
    ensures 0 <= d.bufferMax[BucketOf(SlotOf(d.laneLocation[lane]))]
    ensures var r := Vacate(d, d.laneLocation[lane]);
      && OwnersOk(r, lane)
      && OthersKept(d, r, lane)
      && LiveItems(r) + multiset{d.buffer[SlotOf(d.laneLocation[lane])]} == LiveItems(d)
  {
    VacateMoves(d, lane);
    VacateOwners(d, lane);
    VacateOthers(d, lane);
    VacateLive(d, d.laneLocation[lane]);
  }

  /** The cost of the entry a recorded lane points to. */
  function RecordedCost(d: Frontier, lane: int): real
    requires WellFormed(d) && 0 <= lane < LaneCount
  {
    d.buffer[SlotOf(d.laneLocation[lane])].comparisonValue
  }

  /** The cheaper item overwrites a queued entry of its own bucket in place. */
  lemma AddInPlace(d: Frontier, item: BufferItem, target: Position)
    requires Inv(d) && item.laneId < LaneCount && IsRecorded(d, item.laneId)
    requires !IsPopped(d, SlotOf(d.laneLocation[item.laneId]))
    requires item.comparisonValue < RecordedCost(d, item.laneId)
    requires Max(BucketIndex(item.comparisonValue), d.minPos) == BucketOf(SlotOf(d.laneLocation[item.laneId]))
    ensures var r := Add(d, item, target);
      && r == d.(buffer := d.buffer[SlotOf(d.laneLocation[item.laneId]) := item],
                 laneTarget := d.laneTarget[item.laneId := target])
      && Inv(r)
      && OthersKept(d, r, item.laneId)
      && LiveItems(r) + multiset{d.buffer[SlotOf(d.laneLocation[item.laneId])]} == LiveItems(d) + multiset{item}
  {
    var lane := item.laneId;
    var s := SlotOf(d.laneLocation[lane]);
    var r := Add(d, item, target);
    assert PointsHome(d, lane);
    assert r.buffer == d.buffer[s := item];
    InPlaceKeepsInv(d, item, target);
    forall l | 0 <= l < LaneCount && l != lane && IsRecorded(d, l)
      ensures SlotOf(d.laneLocation[l]) != s
    {
      assert PointsHome(d, l);
    }
    OverwriteLive(d, r, s);
  }

  /** The in-place overwrite keeps the invariant: the slot still names its lane. */
  lemma InPlaceKeepsInv(d: Frontier, item: BufferItem, target: Position)
    requires Inv(d) && item.laneId < LaneCount && IsRecorded(d, item.laneId)
    requires !IsPopped(d, SlotOf(d.laneLocation[item.laneId]))
    requires item.comparisonValue < RecordedCost(d, item.laneId)
    requires Max(BucketIndex(item.comparisonValue), d.minPos) == BucketOf(SlotOf(d.laneLocation[item.laneId]))
    ensures Inv(d.(buffer := d.buffer[SlotOf(d.laneLocation[item.laneId]) := item],
                   laneTarget := d.laneTarget[item.laneId := target]))
  {
    var lane := item.laneId;
    var s := SlotOf(d.laneLocation[lane]);
    var r := d.(buffer := d.buffer[s := item], laneTarget := d.laneTarget[lane := target]);
    assert PointsHome(d, lane);
    forall l | 0 <= l < LaneCount && IsRecorded(r, l)
      ensures PointsHome(r, l)
    {
      if l != lane {
        assert PointsHome(d, l);
        assert SlotOf(d.laneLocation[l]) != s;
      }
    }
    forall u | 0 <= u < SlotCount && IsLive(r, u)
      ensures BucketIndex(r.buffer[u].comparisonValue) <= BucketOf(u)
    {
      if u != s {
        assert IsLive(d, u);
      }
    }
    forall u | 0 <= u < SlotCount
      ensures r.buffer[u].laneId < LaneCount
    {
    }
    forall u | 0 <= u < SlotCount && IsLive(r, u) && 0 < BucketOf(u)
      ensures var l := r.buffer[u].laneId;
        l != -1 && l < LaneCount && IsRecorded(r, l) && SlotOf(r.laneLocation[l]) == u
    {
    }
  }

  /** The cheaper item goes to an earlier bucket: the lane's queued entry is
      vacated and the item placed afresh. */
  lemma AddMoves(d: Frontier, item: BufferItem, target: Position)
    requires Inv(d) && item.laneId < LaneCount && IsRecorded(d, item.laneId)
    requires !IsPopped(d, SlotOf(d.laneLocation[item.laneId]))
    requires item.comparisonValue < RecordedCost(d, item.laneId)
    requires Max(BucketIndex(item.comparisonValue), d.minPos) != BucketOf(SlotOf(d.laneLocation[item.laneId]))
    ensures var r := Add(d, item, target);
      var q := Max(BucketIndex(item.comparisonValue), d.minPos);
      && PlacedWell(r, item, target, q)
      && OthersKept(d, r, item.laneId)
      && LiveItems(r) + multiset{d.buffer[SlotOf(d.laneLocation[item.laneId])]} == LiveItems(d) + multiset{item}
  {
    var lane := item.laneId;
    var location := d.laneLocation[lane];
    var s := SlotOf(location);
    var q := Max(BucketIndex(item.comparisonValue), d.minPos);
    assert PointsHome(d, lane);
    assert IsLive(d, s);
    var b := BucketOf(s);
    BucketIndexMonotone(item.comparisonValue, d.buffer[s].comparisonValue);
    assert q < b;
    VacateKeepsInv(d, lane);
    VacateKeepsOwners(d, lane);
    var v := Vacate(d, location);
    assert v.bufferMax[b] != BucketSize - 1;
    assert FirstNonFull(v.bufferMax, q) <= b;
    assert Places(v, q);
    PlaceKeepsInv(v, item, target, q, lane);
    var r := Place(v, item, target, q);
    assert Add(d, item, target) == r;
    OthersKeptTrans(d, v, r, lane);
    var one := LiveItems(v);
    assert one + multiset{d.buffer[s]} == LiveItems(d);
    assert LiveItems(r) == one + multiset{item};
    UnionComm(one, multiset{item}, multiset{d.buffer[s]});
  }

  /** AddBufferItem keeps the invariant and keeps, for the item's lane, the best
      entry: an item for a lane already popped changes nothing; for a lane
      queued in this search the lane stays queued at the cheaper of the two
      costs, a cheaper item taking the old entry's place in the queue; a lane
      first reached is queued with the item unless no bucket has room. Every
      other lane keeps its target and its entry. */
  lemma AddKeepsBest(d: Frontier, item: BufferItem, target: Position)
    requires Inv(d) && item.laneId < LaneCount
    ensures Inv(Add(d, item, target))
    ensures OthersKept(d, Add(d, item, target), item.laneId)
    ensures var r := Add(d, item, target);
      var lane := item.laneId;
      var q := Max(BucketIndex(item.comparisonValue), d.minPos);
      && (IsRecorded(d, lane) && IsPopped(d, SlotOf(d.laneLocation[lane])) ==> r == d)
      && (IsRecorded(d, lane) && !IsPopped(d, SlotOf(d.laneLocation[lane])) ==>
            && IsRecorded(r, lane)
            && IsLive(r, SlotOf(r.laneLocation[lane]))
            && (item.comparisonValue >= RecordedCost(d, lane) ==> r == d)
            && (item.comparisonValue < RecordedCost(d, lane) ==>
                  && r.buffer[SlotOf(r.laneLocation[lane])] == item && r.laneTarget[lane] == target
                  && LiveItems(r) == LiveItems(d) - multiset{d.buffer[SlotOf(d.laneLocation[lane])]} + multiset{item}))
      && (!IsRecorded(d, lane) && Places(d, q) ==>
            && IsRecorded(r, lane)
            && IsLive(r, SlotOf(r.laneLocation[lane]))
            && r.buffer[SlotOf(r.laneLocation[lane])] == item
            && r.laneTarget[lane] == target
            && LiveItems(r) == LiveItems(d) + multiset{item})
      && (!IsRecorded(d, lane) && !Places(d, q) ==> r == d)
  {
    var lane := item.laneId;
    var location := d.laneLocation[lane];
    var s := SlotOf(location);
    var q := Max(BucketIndex(item.comparisonValue), d.minPos);
    if !IsRecorded(d, lane) {
      assert OwnersOk(d, lane);
      PlaceKeepsInv(d, item, target, q, -1);
    } else if item.comparisonValue >= d.buffer[s].comparisonValue || IsPopped(d, s) {
      if !IsPopped(d, s) {
        assert PointsHome(d, lane);
      }
    } else if q == BucketOf(s) {
      AddInPlace(d, item, target);
      assert PointsHome(d, lane);
      TradeOne(LiveItems(Add(d, item, target)), LiveItems(d), d.buffer[s], item);
    } else {
      AddMoves(d, item, target);
      TradeOne(LiveItems(Add(d, item, target)), LiveItems(d), d.buffer[s], item);
    }
  }

  /** The candidates of one popped entry added in order, each with the popped
      position as its target. Adding keeps the invariant and never moves the
      read cursors or the epoch. */
  function AddAll(d: Frontier, candidates: seq<BufferItem>, target: Position): (r: Frontier)
    requires Inv(d) && forall c :: c in candidates ==> c.laneId < LaneCount
    ensures Inv(r)
    ensures r.minPos == d.minPos && r.bufferMin == d.bufferMin && r.epoch == d.epoch
    decreases |candidates|
  {
    if candidates == [] then d
    else
      AddKeepsBest(d, candidates[0], target);
      AddAll(Add(d, candidates[0], target), candidates[1..], target)
  }

  /** A lane none of the candidates is for keeps its target, whether it is
      recorded, and, when recorded, its entry. */
  lemma {:induction false} AddAllKeepsOthers(d: Frontier, candidates: seq<BufferItem>, target: Position, l: int)
    requires Inv(d) && forall c :: c in candidates ==> c.laneId < LaneCount
    requires 0 <= l < LaneCount && forall c :: c in candidates ==> c.laneId != l
    ensures var r := AddAll(d, candidates, target);
      && r.laneTarget[l] == d.laneTarget[l]
      && IsRecorded(r, l) == IsRecorded(d, l)
      && (IsRecorded(d, l) ==>
            && r.buffer[SlotOf(r.laneLocation[l])] == d.buffer[SlotOf(d.laneLocation[l])]
            && IsLive(r, SlotOf(r.laneLocation[l])) == IsLive(d, SlotOf(d.laneLocation[l])))
    decreases |candidates|
  {
    if candidates != [] {
      AddKeepsBest(d, candidates[0], target);
      var next := Add(d, candidates[0], target);
      assert forall c :: c in candidates[1..] ==> c in candidates;
      AddAllKeepsOthers(next, candidates[1..], target, l);
    }
  }

  // ---------------------------------------------------------------------
  // The search loop's pop
  // ---------------------------------------------------------------------

  /** One turn of the search loop: an exhausted current bucket moves the search
      to the next bucket; otherwise the entry at the bucket's read cursor is
      taken and the cursor advances. */
  function Step(d: Frontier): (r: (Frontier, Option<BufferItem>))
    requires WellFormed(d) && BucketsOk(d) && d.minPos <= d.maxPos
    ensures WellFormed(r.0)
  {
    var b := d.minPos;
    var lo := d.bufferMin[b];
    if lo > d.bufferMax[b] then (d.(minPos := b + 1), None)
    else (d.(bufferMin := d.bufferMin[b := lo + 1]), Some(d.buffer[Slot(b, lo)]))
  }

  /** A turn of the search loop keeps the invariant and never moves the search
      back to an earlier bucket. */
  lemma StepKeepsInv(d: Frontier)
    requires Inv(d) && d.minPos <= d.maxPos
    ensures Inv(Step(d).0)
    ensures d.minPos <= Step(d).0.minPos
  {
    var r := Step(d).0;
    var b := d.minPos;
    var lo := d.bufferMin[b];
    if lo > d.bufferMax[b] {
      assert BucketsOk(r);
      forall l | 0 <= l < LaneCount && IsRecorded(r, l)
        ensures PointsHome(r, l)
      {
        assert PointsHome(d, l);
      }
    } else {
      assert r.bufferMin == d.bufferMin[b := lo + 1];
      assert BucketsOk(r);
      forall l | 0 <= l < LaneCount && IsRecorded(r, l)
        ensures PointsHome(r, l)
      {
        assert PointsHome(d, l);
        var u := SlotOf(d.laneLocation[l]);
        assert IsLive(d, u) ==> IsLive(r, u) || IsPopped(r, u);
      }
      forall u | 0 <= u < SlotCount && IsLive(r, u)
        ensures BucketIndex(r.buffer[u].comparisonValue) <= BucketOf(u)
      {
        assert IsLive(d, u);
      }
    }
  }

  /** No queued slot before the current bucket: every queued entry is in the
      current bucket or a later one. */
  lemma QueuedFromCurrentBucket(d: Frontier, s: int)
    requires Inv(d) && 0 <= s < SlotCount && IsLive(d, s)
    ensures d.minPos <= BucketOf(s) <= d.maxPos
    ensures !IsPopped(d, s)
  {
  }

  /** The pop takes the lowest queued slot of the whole buffer, which is in the
      current bucket, and that slot is no longer queued afterwards; a pop that
      takes nothing leaves no queued slot in the current bucket. */
  lemma StepTakesFirst(d: Frontier)
    requires Inv(d) && d.minPos <= d.maxPos
    ensures var (r, taken) := Step(d);
      var first := Slot(d.minPos, d.bufferMin[d.minPos]);
      && (taken.Some? ==>
            && 0 <= first < SlotCount
            && IsLive(d, first) && !IsLive(r, first) && IsPopped(r, first)
            && taken.value == d.buffer[first]
            && BucketIndex(taken.value.comparisonValue) <= d.minPos
            && (forall s :: 0 <= s < SlotCount && IsLive(d, s) ==> first <= s))
      && (taken.None? ==>
            && r.minPos == d.minPos + 1
            && (forall s :: 0 <= s < SlotCount && IsLive(d, s) ==> d.minPos < BucketOf(s)))
  {
    var b := d.minPos;
    var lo := d.bufferMin[b];
    if lo <= d.bufferMax[b] {
      var first := Slot(b, lo);
      SlotRoundTrip(b, lo);
      assert IsLive(d, first);
      forall s | 0 <= s < SlotCount && IsLive(d, s)
        ensures first <= s
      {
        QueuedFromCurrentBucket(d, s);
        assert s == Slot(BucketOf(s), IndexOf(s));
      }
    } else {
      forall s | 0 <= s < SlotCount && IsLive(d, s)
        ensures b < BucketOf(s)
      {
        QueuedFromCurrentBucket(d, s);
      }
    }
  }

  /** A pop takes its entry out of the queue and nothing else; a move to the
      next bucket changes no entry. */
  lemma StepLive(d: Frontier)
    requires Inv(d) && d.minPos <= d.maxPos
    ensures var (r, taken) := Step(d);
      && (taken.Some? ==> LiveItems(r) + multiset{taken.value} == LiveItems(d))
      && (taken.None? ==> LiveItems(r) == LiveItems(d))
  {
    var b := d.minPos;
    if d.bufferMin[b] <= d.bufferMax[b] {
      DropFirstLive(d, Step(d).0, b);
    } else {
      assert LiveSlots(Step(d).0) == LiveSlots(d);
    }
  }

  /** Advancing a bucket's read cursor by one unqueues its first entry. */
  lemma DropFirstLive(d: Frontier, r: Frontier, b: int)
    requires WellFormed(d) && WellFormed(r) && BucketsOk(d) && 0 <= b < BucketCount
    requires d.bufferMin[b] <= d.bufferMax[b]
    requires r.buffer == d.buffer && r.bufferMax == d.bufferMax && r.bufferMin == d.bufferMin[b := d.bufferMin[b] + 1]
    ensures 0 <= Slot(b, d.bufferMin[b]) < SlotCount
    ensures LiveItems(r) + multiset{d.buffer[Slot(b, d.bufferMin[b])]} == LiveItems(d)
  {
    var t := Slot(b, d.bufferMin[b]);
    SlotRoundTrip(b, d.bufferMin[b]);
    forall u | 0 <= u < SlotCount && u != t
      ensures LiveSlots(r)[u] == LiveSlots(d)[u]
    {
      assert u == Slot(BucketOf(u), IndexOf(u));
      assert IsLive(r, u) == IsLive(d, u);
    }
    LiveOneSlot(d, r, t);
  }

  /** Once the current bucket has passed the last bucket in use, nothing is queued. */
  lemma ExhaustedIsEmpty(d: Frontier)
    requires Inv(d) && d.minPos > d.maxPos
    ensures forall s :: 0 <= s < SlotCount ==> !IsLive(d, s)
  {
    forall s | 0 <= s < SlotCount
      ensures !IsLive(d, s)
    {
      if IsLive(d, s) {
        QueuedFromCurrentBucket(d, s);
      }
    }
  }

  // ---------------------------------------------------------------------
  // Starting a search: the epoch advance and the seeding with the end positions
  // ---------------------------------------------------------------------

  /** (index + 1) & 0x7FFF */
  function NextEpoch(epoch: nat): (r: nat)
    ensures r < EpochLimit
    ensures epoch + 1 < EpochLimit ==> r == epoch + 1
  {
    (epoch + 1) % EpochLimit
  }

  /** The epoch advance; on the wrap to 0 every lane location is reset so that no
      location of an older search can match. */
  function Renew(d: Frontier): (r: Frontier)
    requires WellFormed(d)
    ensures WellFormed(r)
  {
    var e := NextEpoch(d.epoch);
    d.(epoch := e, laneLocation := if e == 0 then seq(LaneCount, _ => ResetLocation) else d.laneLocation)
  }

  /** Buckets emptied: every read cursor 0, every write cursor -1. */
  function Cleared(d: Frontier): (r: Frontier)
    requires WellFormed(d)
    ensures WellFormed(r)
  {
    d.(minPos := 0, maxPos := -1, bufferMin := seq(BucketCount, _ => 0), bufferMax := seq(BucketCount, _ => -1))
  }

  /** An end position with a segment is queued in bucket 0 at the next slot;
      its lane location is not recorded. */
  function Seed(d: Frontier, item: BufferItem): (r: Frontier)
    requires WellFormed(d) && -1 <= d.maxPos < SlotCount - 1
    ensures WellFormed(r)
  {
    if item.position.segment == 0 then d
    else d.(bufferMax := d.bufferMax[0 := d.bufferMax[0] + 1],
            maxPos := d.maxPos + 1,
            buffer := d.buffer[d.maxPos + 1 := item])
  }

  /** The state the search loop starts from. */
  function Begin(d: Frontier, endA: BufferItem, endB: BufferItem): (r: Frontier)
    requires WellFormed(d)
    ensures WellFormed(r)
  {
    Seed(Seed(Cleared(Renew(d)), endA), endB)
  }

  /** Starting a search from any state whose epochs are sound gives a state with
      the invariant in which no lane is recorded, both present end positions
      are queued in bucket 0, and nothing else is queued. */
  lemma BeginKeepsInv(d: Frontier, endA: BufferItem, endB: BufferItem)
    requires WellFormed(d) && EpochsOk(d) && LanesOk(d)
    requires endA.laneId < LaneCount && endB.laneId < LaneCount
    requires endA.comparisonValue == 0.0 && endB.comparisonValue == 0.0
    ensures var r := Begin(d, endA, endB);
      && Inv(r)
      && r.epoch == NextEpoch(d.epoch)
      && (forall l :: 0 <= l < LaneCount ==> !IsRecorded(r, l))
      && r.minPos == 0
      && (forall s :: 0 <= s < SlotCount && IsLive(r, s) ==> s < 2)
      && (endA.position.segment != 0 ==> IsLive(r, 0) && r.buffer[0] == endA)
      && (endB.position.segment != 0 ==>
            (IsLive(r, Seed(Cleared(Renew(d)), endA).maxPos + 1)
             && r.buffer[Seed(Cleared(Renew(d)), endA).maxPos + 1] == endB))
  {
    var n := Renew(d);
    assert EpochsOk(n) && forall l :: 0 <= l < LaneCount ==> !IsRecorded(n, l);
    var c := Cleared(n);
    assert Seeding(c);
    SeedKeepsSeeding(c, endA);
    var a := Seed(c, endA);
    SeedKeepsSeeding(a, endB);
  }

  /** The state while the end positions are queued: the invariant, bucket 0 the
      only one in use and unread, no lane recorded, and the queued entries the
      first slots of bucket 0. */
  ghost predicate Seeding(c: Frontier)
  {
    && Inv(c)
    && c.minPos == 0 && -1 <= c.maxPos <= 1 && c.maxPos == c.bufferMax[0]
    && (forall b :: 0 <= b < BucketCount ==> c.bufferMin[b] == 0)
    && (forall l :: 0 <= l < LaneCount ==> !IsRecorded(c, l))
    && (forall s :: 0 <= s < SlotCount && IsLive(c, s) ==> s <= c.maxPos)
  }

  /** Queueing one end item keeps the seeding state and puts the item at the
      next slot of bucket 0. */
  lemma SeedKeepsSeeding(c: Frontier, item: BufferItem)
    requires Seeding(c) && c.maxPos < 1
    requires item.laneId < LaneCount && item.comparisonValue == 0.0
    ensures Seeding(Seed(c, item))
    ensures item.position.segment == 0 ==> Seed(c, item) == c
    ensures item.position.segment != 0 ==>
      Seed(c, item).maxPos == c.maxPos + 1
      && IsLive(Seed(c, item), c.maxPos + 1) && Seed(c, item).buffer[c.maxPos + 1] == item
    ensures forall s :: 0 <= s <= c.maxPos ==> Seed(c, item).buffer[s] == c.buffer[s]
  {
    var r := Seed(c, item);
    if item.position.segment != 0 {
      forall s | 0 <= s < SlotCount && IsLive(r, s)
        ensures s <= r.maxPos && BucketIndex(r.buffer[s].comparisonValue) <= BucketOf(s)
      {
        assert BucketOf(s) == 0;
      }
      assert BucketsOk(r);
      assert EpochsOk(r);
      forall l | 0 <= l < LaneCount
        ensures !IsRecorded(r, l)
      {
        assert !IsRecorded(c, l);
      }
    }
  }

  // ---------------------------------------------------------------------
  // The staleness test as the source writes it
  // ---------------------------------------------------------------------

  /** The source's test of whether a recorded entry was already popped compares
      `slot & -64` (the bucket's base slot) with the bucket's read cursor, where
      the slot's index in the bucket (`slot & 63`) is meant. */
  predicate StaleAsWritten(d: Frontier, s: int)
    requires WellFormed(d) && 0 <= s < SlotCount
  {
    BucketOf(s) < d.minPos || (BucketOf(s) == d.minPos && s - IndexOf(s) < d.bufferMin[BucketOf(s)])
  }

  /** Within the invariant the written test only ever fires inside the current
      bucket when that bucket is bucket 0 and something was popped from it. */
  lemma StaleAsWrittenMeaning(d: Frontier, s: int)
    requires Inv(d) && 0 <= s < SlotCount
    ensures StaleAsWritten(d, s) <==>
      BucketOf(s) < d.minPos || (BucketOf(s) == d.minPos && BucketOf(s) == 0 && d.bufferMin[0] > 0)
  {
    assert s - IndexOf(s) == BucketOf(s) * BucketSize;
  }

  /** AddBufferItem exactly as written, with the written staleness test. */
  function AddAsWritten(d: Frontier, item: BufferItem, target: Position): (r: Frontier)
    requires Inv(d) && item.laneId < LaneCount
    ensures WellFormed(r)
  {
    var location := d.laneLocation[item.laneId];
    var s := SlotOf(location);
    var bucket := Max(BucketIndex(item.comparisonValue), d.minPos);
    if EpochOf(location) != d.epoch then Place(d, item, target, bucket)
    else if item.comparisonValue >= d.buffer[s].comparisonValue then d
    else if StaleAsWritten(d, s) then d
    else if bucket == BucketOf(s) then
      d.(buffer := d.buffer[s := item], laneTarget := d.laneTarget[item.laneId := target])
    else
      assert PointsHome(d, item.laneId);
      Place(Vacate(d, location), item, target, bucket)
  }

  /** As written, a cheaper item for a lane still queued in bucket 0 is dropped
      as soon as anything was popped from bucket 0, whereas the corrected test
      queues the lane at the cheaper cost. */
  lemma AsWrittenDropsQueuedImprovement(d: Frontier, item: BufferItem, target: Position)
    requires Inv(d) && item.laneId < LaneCount && IsRecorded(d, item.laneId)
    requires d.minPos == 0 && d.bufferMin[0] > 0
    requires BucketOf(SlotOf(d.laneLocation[item.laneId])) == 0
    requires IsLive(d, SlotOf(d.laneLocation[item.laneId]))
    requires item.comparisonValue < RecordedCost(d, item.laneId)
    ensures AddAsWritten(d, item, target) == d
    ensures RecordedCost(Add(d, item, target), item.laneId) == item.comparisonValue < RecordedCost(d, item.laneId)
  {
    AddKeepsBest(d, item, target);
  }

  /** As written, a cheaper item for a lane already popped from the current
      bucket (other than bucket 0) overwrites the popped entry and its target,
      whereas the corrected test leaves the settled lane alone. */
  lemma AsWrittenRewritesSettledEntry(d: Frontier, item: BufferItem, target: Position)
    requires Inv(d) && item.laneId < LaneCount && IsRecorded(d, item.laneId)
    requires d.minPos > 0 && BucketOf(SlotOf(d.laneLocation[item.laneId])) == d.minPos
    requires IsPopped(d, SlotOf(d.laneLocation[item.laneId]))
    requires item.comparisonValue < RecordedCost(d, item.laneId)
    requires BucketIndex(item.comparisonValue) <= d.minPos
    ensures var w := AddAsWritten(d, item, target);
      w.buffer[SlotOf(d.laneLocation[item.laneId])] == item && w.laneTarget[item.laneId] == target
    ensures Add(d, item, target) == d
  {
    StaleAsWrittenMeaning(d, SlotOf(d.laneLocation[item.laneId]));
  }

  /** The two tests decide alike on the lane's recorded slot exactly where the
      written one is harmless, and there the written AddBufferItem is the
      corrected one. */
  lemma AsWrittenAgreesWhenTestsAgree(d: Frontier, item: BufferItem, target: Position)
    requires Inv(d) && item.laneId < LaneCount
    requires StaleAsWritten(d, SlotOf(d.laneLocation[item.laneId])) == IsPopped(d, SlotOf(d.laneLocation[item.laneId]))
    ensures AddAsWritten(d, item, target) == Add(d, item, target)
  {
  }

  /** The tests can only disagree on a slot of the current bucket once
      something was popped from it: everywhere else the written AddBufferItem
      is the corrected one, and so keeps the invariant. */
  lemma AsWrittenAgreesOffCurrentBucket(d: Frontier, item: BufferItem, target: Position)
    requires Inv(d) && item.laneId < LaneCount
    requires BucketOf(SlotOf(d.laneLocation[item.laneId])) != d.minPos || d.bufferMin[d.minPos] == 0
    ensures AddAsWritten(d, item, target) == Add(d, item, target)
    ensures Inv(AddAsWritten(d, item, target))
  {
    var s := SlotOf(d.laneLocation[item.laneId]);
    StaleAsWrittenMeaning(d, s);
    AddKeepsBest(d, item, target);
  }

  /** As written, an in-place rewrite of an entry already popped from the
      current bucket keeps the invariant: the slot still names its lane. */
  lemma AsWrittenRewriteKeepsInv(d: Frontier, item: BufferItem, target: Position)
    requires Inv(d) && item.laneId < LaneCount && IsRecorded(d, item.laneId)
    requires d.minPos > 0 && BucketOf(SlotOf(d.laneLocation[item.laneId])) == d.minPos
    requires IsPopped(d, SlotOf(d.laneLocation[item.laneId]))
    requires item.comparisonValue < RecordedCost(d, item.laneId)
    requires BucketIndex(item.comparisonValue) <= d.minPos
    ensures Inv(AddAsWritten(d, item, target))
  {
    var s := SlotOf(d.laneLocation[item.laneId]);
    StaleAsWrittenMeaning(d, s);
    var w := AddAsWritten(d, item, target);
    assert w == d.(buffer := d.buffer[s := item], laneTarget := d.laneTarget[item.laneId := target]);
    forall t | 0 <= t < SlotCount && IsLive(w, t)
      ensures BucketIndex(w.buffer[t].comparisonValue) <= BucketOf(t)
    {
      assert t != s;
    }
    assert PointsHome(d, item.laneId);
    forall l | 0 <= l < LaneCount && IsRecorded(w, l)
      ensures PointsHome(w, l)
    {
      assert PointsHome(d, l);
    }
  }

  /** Every entry already popped from the current bucket has a cost that
      rounds to that bucket or an earlier one. */
  ghost predicate CurrentPoppedOk(d: Frontier)
    requires WellFormed(d)
  {
    forall s :: 0 <= s < SlotCount && BucketOf(s) == d.minPos && IsPopped(d, s) ==>
      BucketIndex(d.buffer[s].comparisonValue) <= d.minPos
  }

  /** `r` has the cursors of `d` and the same entries in every popped slot. */
  ghost predicate KeepsPopped(d: Frontier, r: Frontier)
    requires WellFormed(d) && WellFormed(r)
  {
    && r.minPos == d.minPos && r.bufferMin == d.bufferMin
    && forall u :: 0 <= u < SlotCount && IsPopped(d, u) ==> r.buffer[u] == d.buffer[u]
  }

  lemma PlaceKeepsPopped(d: Frontier, item: BufferItem, target: Position, bucket: int)
    requires WellFormed(d) && BucketsOk(d) && item.laneId < LaneCount && d.minPos <= bucket
    ensures KeepsPopped(d, Place(d, item, target, bucket))
  {
    if 0 <= bucket < BucketCount && FirstNonFull(d.bufferMax, bucket) < BucketCount {
      var b := FirstNonFull(d.bufferMax, bucket);
      AppendSlotFree(d, b);
      assert Place(d, item, target, bucket) == Append(d, item, target, b);
    }
  }

  /** Starting a search leaves nothing popped. */
  lemma BeginPoppedOk(d: Frontier, endA: BufferItem, endB: BufferItem)
    requires WellFormed(d)
    ensures forall s :: 0 <= s < SlotCount ==> !IsPopped(Begin(d, endA, endB), s)
    ensures CurrentPoppedOk(Begin(d, endA, endB))
  {
    var r := Begin(d, endA, endB);
    assert r.minPos == 0 && r.bufferMin == seq(BucketCount, _ => 0);
  }

  /** A turn of the search loop keeps the popped entries of the current bucket
      within it: the entry it takes was queued there, and a bucket it moves to
      has nothing popped yet. */
  lemma StepKeepsPoppedOk(d: Frontier)
    requires Inv(d) && CurrentPoppedOk(d) && d.minPos <= d.maxPos
    ensures CurrentPoppedOk(Step(d).0)
  {
    var r := Step(d).0;
    var b := d.minPos;
    var lo := d.bufferMin[b];
    if lo <= d.bufferMax[b] {
      SlotRoundTrip(b, lo);
      assert IsLive(d, Slot(b, lo));
      forall u | 0 <= u < SlotCount && BucketOf(u) == r.minPos && IsPopped(r, u)
        ensures BucketIndex(r.buffer[u].comparisonValue) <= r.minPos
      {
        if u != Slot(b, lo) {
          assert u == Slot(BucketOf(u), IndexOf(u));
          assert IsPopped(d, u);
        }
      }
    }
  }

  /** AddBufferItem changes no popped entry and no cursor, so it keeps the
      popped entries of the current bucket within it. */
  lemma AddKeepsPoppedOk(d: Frontier, item: BufferItem, target: Position)
    requires Inv(d) && CurrentPoppedOk(d) && item.laneId < LaneCount
    ensures KeepsPopped(d, Add(d, item, target))
    ensures CurrentPoppedOk(Add(d, item, target))
  {
    var lane := item.laneId;
    var location := d.laneLocation[lane];
    var s := SlotOf(location);
    var q := Max(BucketIndex(item.comparisonValue), d.minPos);
    if !IsRecorded(d, lane) {
      PlaceKeepsPopped(d, item, target, q);
    } else if item.comparisonValue < d.buffer[s].comparisonValue && !IsPopped(d, s) && q != BucketOf(s) {
      VacateKeepsInv(d, lane);
      var v := Vacate(d, location);
      assert KeepsPopped(d, v);
      PlaceKeepsPopped(v, item, target, q);
      assert Add(d, item, target) == Place(v, item, target, q);
    }
  }

  /** Adding the candidates of a popped entry keeps the popped entries of the
      current bucket within it. */
  lemma {:induction false} AddAllKeepsPoppedOk(d: Frontier, candidates: seq<BufferItem>, target: Position)
    requires Inv(d) && CurrentPoppedOk(d) && forall c :: c in candidates ==> c.laneId < LaneCount
    ensures CurrentPoppedOk(AddAll(d, candidates, target))
    decreases |candidates|
  {
    if candidates != [] {
      AddKeepsBest(d, candidates[0], target);
      AddKeepsPoppedOk(d, candidates[0], target);
      assert forall c :: c in candidates[1..] ==> c in candidates;
      AddAllKeepsPoppedOk(Add(d, candidates[0], target), candidates[1..], target);
    }
  }

  /** In every state the search loop reaches, a cheaper item for a lane popped
      from the current bucket rounds to that bucket, so the written
      AddBufferItem never vacates the popped slot: in bucket 0 it drops the
      item, in a later bucket it overwrites the popped entry in place. */
  lemma AsWrittenNeverVacatesPopped(d: Frontier, item: BufferItem, target: Position)
    requires Inv(d) && CurrentPoppedOk(d) && item.laneId < LaneCount && IsRecorded(d, item.laneId)
    requires BucketOf(SlotOf(d.laneLocation[item.laneId])) == d.minPos
    requires IsPopped(d, SlotOf(d.laneLocation[item.laneId]))
    requires item.comparisonValue < RecordedCost(d, item.laneId)
    ensures Max(BucketIndex(item.comparisonValue), d.minPos) == BucketOf(SlotOf(d.laneLocation[item.laneId]))
    ensures AddAsWritten(d, item, target) ==
      if d.minPos == 0 then d
      else d.(buffer := d.buffer[SlotOf(d.laneLocation[item.laneId]) := item],
              laneTarget := d.laneTarget[item.laneId := target])
  {
    var s := SlotOf(d.laneLocation[item.laneId]);
    StaleAsWrittenMeaning(d, s);
    BucketIndexMonotone(item.comparisonValue, d.buffer[s].comparisonValue);
  }

  /** A state in which both discrepancies arise: bucket 0 partly popped with
      slot 1 still queued, and bucket 1 current with slot 64 popped. */
  lemma StaleAsWrittenWitnesses()
    ensures var mins := seq(BucketCount, b => if b == 0 then 1 else 0);
      var maxs := seq(BucketCount, b => if b == 0 then 1 else -1);
      var d := Frontier(seq(SlotCount, _ => BufferItem(Position(0, 0, 0), 0.0, 0.0, 0.0, 0, DirNone, {})),
                        mins, maxs, 0, 0, seq(LaneCount, _ => 0), seq(LaneCount, _ => Position(0, 0, 0)), 1);
      StaleAsWritten(d, 1) && IsLive(d, 1) && !IsPopped(d, 1)
    ensures var mins := seq(BucketCount, b => if b == 1 then 1 else 0);
      var maxs := seq(BucketCount, b => if b == 1 then 0 else -1);
      var d := Frontier(seq(SlotCount, _ => BufferItem(Position(0, 0, 0), 0.0, 0.0, 0.0, 0, DirNone, {})),
                        mins, maxs, 1, 1, seq(LaneCount, _ => 0), seq(LaneCount, _ => Position(0, 0, 0)), 1);
      !StaleAsWritten(d, 64) && IsPopped(d, 64)
  {
  }
}
