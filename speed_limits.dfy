/** The speed-limit manager: which lanes and segments may carry a custom speed
    limit, the conversion of a stored limit (0 meaning unlimited) into the
    game's speed units, the per-NetInfo default and override tables with the
    propagation of an override from a parent NetInfo to its children, the
    per-lane and per-direction overrides, and the pass that files procedural
    NetInfos under the NetInfo whose name they extend. */
module SpeedLimits {
  import opened Net
  import opened Wrappers

  /** The game's largest speed (1000 km/h), used for an unlimited lane. */
  const MaxSpeed: real := 20.0

  /** The lane types and the vehicle types a customisable lane must meet. */
  const LaneTypes: set<LaneType> := {Vehicle, TransportVehicle}
  const VehicleTypes: set<VehicleType> := {Car, Tram, Metro, Train, Monorail}

  // ---------------------------------------------------------------------
  // Conversions and eligibility
  // ---------------------------------------------------------------------

  /** ToGameSpeedLimit: a stored limit of 0 stands for "unlimited", which is the
      game's maximum speed; every other limit is already in game units. */
  function ToGameSpeedLimit(custom: real): (r: real)
    ensures r != 0.0
    ensures custom != 0.0 ==> r == custom
    ensures custom == 0.0 ==> r == MaxSpeed
  {
    if custom == 0.0 then MaxSpeed else custom
  }

  /** Converting twice is converting once: a game speed limit is never 0. */
  lemma ToGameSpeedLimitIdempotent(custom: real)
    ensures ToGameSpeedLimit(ToGameSpeedLimit(custom)) == ToGameSpeedLimit(custom)
  {
  }

  /** MayHaveCustomSpeedLimits(lane): the lane meets both masks. */
  predicate MayHaveCustomLaneSpeedLimits(lane: LaneInfo)
  {
    lane.laneType * LaneTypes != {} && lane.vehicleType * VehicleTypes != {}
  }

  /** The lanes whose game speed limit a NetInfo update rewrites. */
  predicate Motorised(lane: LaneInfo)
  {
    lane.vehicleType * VehicleTypes != {}
  }

  /** A customisable lane is a motorised lane of a vehicle lane type, so a NetInfo
      update reaches every lane that can carry an override; a motorised lane of
      another lane type is rewritten but is not customisable. */
  lemma CustomisableLanesAreMotorised(lane: LaneInfo)
    ensures MayHaveCustomLaneSpeedLimits(lane) <==> Motorised(lane) && lane.laneType * LaneTypes != {}
    ensures MayHaveCustomLaneSpeedLimits(lane) <==>
      (exists t :: t in lane.laneType && t in LaneTypes) && (exists v :: v in lane.vehicleType && v in VehicleTypes)
  {
    if lane.laneType * LaneTypes != {} {
      var t :| t in lane.laneType * LaneTypes;
    }
    if lane.vehicleType * VehicleTypes != {} {
      var v :| v in lane.vehicleType * VehicleTypes;
    }
    if (exists t :: t in lane.laneType && t in LaneTypes) {
      var t :| t in lane.laneType && t in LaneTypes;
      assert t in lane.laneType * LaneTypes;
    }
    if (exists v :: v in lane.vehicleType && v in VehicleTypes) {
      var v :| v in lane.vehicleType && v in VehicleTypes;
      assert v in lane.vehicleType * VehicleTypes;
    }
  }

  datatype Service = RoadService | PublicTransportService | OtherService
  datatype SubService = PublicTransportTrain | PublicTransportTram | PublicTransportMetro
                      | PublicTransportMonorail | OtherSubService

  /** A segment's NetInfo as far as speed limits are concerned: its connection
      class and its lanes (which may be missing). */
  datatype SegmentInfo = SegmentInfo(service: Service, subService: SubService, lanes: Option<seq<LaneInfo>>)

  /** A segment: whether it is created, its NetInfo (which may be missing) and
      the id of its first lane. */
  datatype Segment = Segment(created: bool, info: Option<SegmentInfo>, firstLane: nat)

  /** The segment can be inspected the way the manager inspects it: a created
      segment has a NetInfo (the game dereferences it unconditionally). */
  predicate Inspectable(s: Segment)
  {
    s.created ==> s.info.Some?
  }

  /** The lanes of a customisable segment can be walked: its NetInfo has a lane
      array (the per-lane lookup dereferences it unconditionally). */
  predicate LanesReadable(s: Segment)
  {
    Inspectable(s) && (MayHaveCustomSegmentSpeedLimits(s) ==> s.info.value.lanes.Some?)
  }

  predicate RoadOrRail(info: SegmentInfo)
  {
    || info.service == RoadService
    || (info.service == PublicTransportService
        && info.subService in {PublicTransportTrain, PublicTransportTram, PublicTransportMetro, PublicTransportMonorail})
  }

  /** MayHaveCustomSpeedLimits(segment): created, and a road or a train, tram,
      metro or monorail track. */
  function MayHaveCustomSegmentSpeedLimits(s: Segment): (r: bool)
    requires Inspectable(s)
    ensures r ==> s.created && s.info.Some?
    ensures !s.created ==> !r
    ensures s.created ==> (r <==> RoadOrRail(s.info.value))
  {
    s.created && RoadOrRail(s.info.value)
  }

  // ---------------------------------------------------------------------
  // Lane chains
  // ---------------------------------------------------------------------

  /** The lane ids of a segment: from its first lane along the next-lane links,
      at most `n` of them and stopping at id 0. */
  function LaneChain(nextLane: nat -> nat, lane: nat, n: nat): (r: seq<nat>)
    ensures |r| <= n
    ensures forall i :: 0 <= i < |r| ==> r[i] != 0
    decreases n
  {
    if n == 0 || lane == 0 then [] else [lane] + LaneChain(nextLane, nextLane(lane), n - 1)
  }

  /** The first index at which `x` occurs. */
  function IndexOf(xs: seq<nat>, x: nat): (r: Option<nat>)
    ensures r.Some? ==> r.value < |xs| && xs[r.value] == x && x !in xs[..r.value]
    ensures r.None? <==> x !in xs
  {
    if xs == [] then None
    else if xs[0] == x then Some(0)
    else
      var rest := IndexOf(xs[1..], x);
      assert xs == [xs[0]] + xs[1..];
      if rest.Some? then
        assert xs[..rest.value + 1] == [xs[0]] + xs[1..][..rest.value];
        Some(rest.value + 1)
      else None
  }

  /** The first index at which `x` occurs is the one IndexOf finds. */
  lemma IndexOfFirst(xs: seq<nat>, x: nat, i: nat)
    requires i < |xs| && xs[i] == x && x !in xs[..i]
    ensures IndexOf(xs, x) == Some(i)
  {
    var j := IndexOf(xs, x);
    assert forall k :: 0 <= k < i ==> xs[..i][k] == xs[k];
    assert forall k :: 0 <= k < j.value ==> xs[..j.value][k] == xs[k];
  }

  /** One more step along a chain. */
  lemma LaneChainStep(nextLane: nat -> nat, lane: nat, n: nat)
    requires n > 0 && lane != 0
    ensures LaneChain(nextLane, lane, n) == [lane] + LaneChain(nextLane, nextLane(lane), n - 1)
  {
  }

  // ---------------------------------------------------------------------
  // Per-lane speed limits
  // ---------------------------------------------------------------------

  /** GetCustomSpeedLimit(lane): the lane's override when it has one; otherwise
      the default limit of the lane in its segment's NetInfo, found by walking
      the segment's lanes, or 0 when the segment or the lane is not
      customisable or the lane is not among the segment's lanes. */
  function CustomSpeedLimit(laneId: nat, overrides: map<nat, real>, laneSegment: nat -> nat,
                            segments: nat -> Segment, nextLane: nat -> nat): real
    requires LanesReadable(segments(laneSegment(laneId)))
  {
    if laneId in overrides then overrides[laneId]
    else
      var s := segments(laneSegment(laneId));
      if !MayHaveCustomSegmentSpeedLimits(s) then 0.0
      else
        var lanes := s.info.value.lanes.value;
        match IndexOf(LaneChain(nextLane, s.firstLane, |lanes|), laneId)
        case None => 0.0
        case Some(i) => if MayHaveCustomLaneSpeedLimits(lanes[i]) then lanes[i].speedLimit else 0.0
  }

  /** An override wins; without one a customisable lane found at index `i` of
      its segment reports its NetInfo default. */
  lemma CustomSpeedLimitMeaning(laneId: nat, overrides: map<nat, real>, laneSegment: nat -> nat,
                                segments: nat -> Segment, nextLane: nat -> nat, i: nat)
    requires LanesReadable(segments(laneSegment(laneId)))
    ensures laneId in overrides ==> CustomSpeedLimit(laneId, overrides, laneSegment, segments, nextLane) == overrides[laneId]
    ensures var s := segments(laneSegment(laneId));
      laneId !in overrides && MayHaveCustomSegmentSpeedLimits(s)
      && i < |s.info.value.lanes.value|
      && i < |LaneChain(nextLane, s.firstLane, |s.info.value.lanes.value|)|
      && LaneChain(nextLane, s.firstLane, |s.info.value.lanes.value|)[i] == laneId
      && laneId !in LaneChain(nextLane, s.firstLane, |s.info.value.lanes.value|)[..i]
      && MayHaveCustomLaneSpeedLimits(s.info.value.lanes.value[i])
      ==> CustomSpeedLimit(laneId, overrides, laneSegment, segments, nextLane) == s.info.value.lanes.value[i].speedLimit
  {
    var s := segments(laneSegment(laneId));
    if laneId !in overrides && MayHaveCustomSegmentSpeedLimits(s) {
      var lanes := s.info.value.lanes.value;
      var chain := LaneChain(nextLane, s.firstLane, |lanes|);
      if i < |chain| && chain[i] == laneId && laneId !in chain[..i] {
        IndexOfFirst(chain, laneId, i);
      }
    }
  }

  /** GetCustomSpeedLimit(uint): the override is read first; otherwise the
      segment's lanes are walked until the lane is found. */
  method GetCustomSpeedLimit(laneId: nat, overrides: map<nat, real>, laneSegment: nat -> nat,
                             segments: nat -> Segment, nextLane: nat -> nat) returns (r: real)
    requires LanesReadable(segments(laneSegment(laneId)))
    ensures r == CustomSpeedLimit(laneId, overrides, laneSegment, segments, nextLane)
  {
    if laneId in overrides {
      return overrides[laneId];
    }
    var segmentId := laneSegment(laneId);
    if !MayHaveCustomSegmentSpeedLimits(segments(segmentId)) {
      return 0.0;
    }
    var lanes := segments(segmentId).info.value.lanes.value;
    ghost var chain := LaneChain(nextLane, segments(segmentId).firstLane, |lanes|);
    var curLaneId := segments(segmentId).firstLane;
    var laneIndex := 0;
    while laneIndex < |lanes| && curLaneId != 0
      invariant 0 <= laneIndex <= |lanes| && laneIndex <= |chain|
      invariant laneId !in chain[..laneIndex]
      invariant chain[laneIndex..] == LaneChain(nextLane, curLaneId, |lanes| - laneIndex)
      decreases |lanes| - laneIndex
    {
      LaneChainStep(nextLane, curLaneId, |lanes| - laneIndex);
      assert chain[laneIndex] == chain[laneIndex..][0] == curLaneId;
      if curLaneId == laneId {
        IndexOfFirst(chain, laneId, laneIndex);
        if !MayHaveCustomLaneSpeedLimits(lanes[laneIndex]) {
          return 0.0;
        }
        return lanes[laneIndex].speedLimit;
      }
      assert chain[laneIndex + 1..] == chain[laneIndex..][1..];
      assert chain[..laneIndex + 1] == chain[..laneIndex] + [curLaneId];
      laneIndex := laneIndex + 1;
      curLaneId := nextLane(curLaneId);
    }
    assert chain[laneIndex..] == [];
    assert chain[..laneIndex] == chain;
    return 0.0;
  }

  /** GetLockFreeGameSpeedLimit: with custom speed limits enabled, a
      customisable lane reads its override from the segment's per-lane array
      (converted to game units) and falls back to its NetInfo default; every
      other lane reports its NetInfo default. */
  function GetLockFreeGameSpeedLimit(enabled: bool, laneIndex: nat, lane: LaneInfo,
                                     fastArray: Option<seq<Option<real>>>): (r: real)
    ensures var stored := fastArray.Some? && laneIndex < |fastArray.value| && fastArray.value[laneIndex].Some?;
      && (enabled && MayHaveCustomLaneSpeedLimits(lane) && stored ==> r == ToGameSpeedLimit(fastArray.value[laneIndex].value))
      && (!enabled || !MayHaveCustomLaneSpeedLimits(lane) || !stored ==> r == lane.speedLimit)
  {
    if !enabled || !MayHaveCustomLaneSpeedLimits(lane) then lane.speedLimit
    else if fastArray.Some? && |fastArray.value| > laneIndex && fastArray.value[laneIndex].Some? then
      ToGameSpeedLimit(fastArray.value[laneIndex].value)
    else lane.speedLimit
  }

  /** The lock-free read agrees with the game speed limit of the lane
      (GetGameSpeedLimit, the conversion of GetCustomSpeedLimit) whenever the
      segment's per-lane array mirrors the lane overrides, the lane is the i-th
      lane of a customisable segment, and its default limit is not 0. */
  lemma LockFreeAgreesWithGameSpeedLimit(laneId: nat, overrides: map<nat, real>, laneSegment: nat -> nat,
                                         segments: nat -> Segment, nextLane: nat -> nat, i: nat,
                                         fastArray: Option<seq<Option<real>>>)
    requires LanesReadable(segments(laneSegment(laneId)))
    requires var s := segments(laneSegment(laneId));
      && MayHaveCustomSegmentSpeedLimits(s)
      && i < |s.info.value.lanes.value|
      && IndexOf(LaneChain(nextLane, s.firstLane, |s.info.value.lanes.value|), laneId) == Some(i)
      && MayHaveCustomLaneSpeedLimits(s.info.value.lanes.value[i])
      && s.info.value.lanes.value[i].speedLimit != 0.0
    requires fastArray.Some? && i < |fastArray.value|
    requires fastArray.value[i] == if laneId in overrides then Some(overrides[laneId]) else None
    ensures GetLockFreeGameSpeedLimit(true, i, segments(laneSegment(laneId)).info.value.lanes.value[i], fastArray)
         == ToGameSpeedLimit(CustomSpeedLimit(laneId, overrides, laneSegment, segments, nextLane))
  {
  }

  /** The flags store of per-lane overrides (Flags.setLaneSpeedLimit). */
  class LaneSpeedFlags {
    var laneSpeed: map<nat, real>

    constructor()
      ensures laneSpeed == map[]
    {
      laneSpeed := map[];
    }
  }

  /** SetSpeedLimit(segment, lane index, lane, lane id, speed): the override is
      stored only for a customisable lane, a speed the range check accepts and a
      valid lane; otherwise nothing is written and the answer is false. */
  method SetLaneSpeedLimit(flags: LaneSpeedFlags, lane: LaneInfo, laneId: nat, speed: real,
                           validRange: real -> bool, laneValid: nat -> bool)
    returns (ok: bool)
    modifies flags
    ensures ok <==> MayHaveCustomLaneSpeedLimits(lane) && validRange(speed) && laneValid(laneId)
    ensures ok ==> flags.laneSpeed == old(flags.laneSpeed)[laneId := speed]
    ensures !ok ==> flags.laneSpeed == old(flags.laneSpeed)
  {
    if !MayHaveCustomLaneSpeedLimits(lane) {
      return false;
    }
    if !validRange(speed) {
      return false;
    }
    if !laneValid(laneId) {
      return false;
    }
    flags.laneSpeed := flags.laneSpeed[laneId := speed];
    return true;
  }

  /** A lane a per-direction update writes: it has the direction and is customisable. */
  predicate LaneMatches(lane: LaneInfo, dir: Direction)
  {
    lane.finalDirection == dir && MayHaveCustomLaneSpeedLimits(lane)
  }

  /** The ids among the first `k` of the chain whose NetInfo lane matches. */
  ghost function MatchedUpTo(chain: seq<nat>, lanes: seq<LaneInfo>, dir: Direction, k: nat): set<nat>
    requires k <= |chain|
  {
    if k == 0 then {}
    else MatchedUpTo(chain, lanes, dir, k - 1)
         + (if k - 1 < |lanes| && LaneMatches(lanes[k - 1], dir) then {chain[k - 1]} else {})
  }

  /** The lanes a per-direction update writes. */
  ghost function Matching(chain: seq<nat>, lanes: seq<LaneInfo>, dir: Direction): set<nat>
  {
    MatchedUpTo(chain, lanes, dir, |chain|)
  }

  /** A lane id is matched exactly when it sits at a matching index. */
  lemma {:induction false} MatchedUpToMeaning(chain: seq<nat>, lanes: seq<LaneInfo>, dir: Direction, k: nat, l: nat)
    requires k <= |chain|
    ensures l in MatchedUpTo(chain, lanes, dir, k) <==>
      exists i :: 0 <= i < k && i < |lanes| && LaneMatches(lanes[i], dir) && chain[i] == l
  {
    if k > 0 {
      MatchedUpToMeaning(chain, lanes, dir, k - 1, l);
      if l in MatchedUpTo(chain, lanes, dir, k) && l !in MatchedUpTo(chain, lanes, dir, k - 1) {
        assert chain[k - 1] == l;
      }
    }
  }

  /** Every lane in `ls` set to `speed`, the rest kept. */
  function SetAll(m: map<nat, real>, ls: set<nat>, speed: real): (r: map<nat, real>)
  {
    m + map l | l in ls :: speed
  }

  /** The lanes in `ls` hold the speed, all others keep their entry. */
  lemma SetAllMeaning(m: map<nat, real>, ls: set<nat>, speed: real)
    ensures SetAll(m, ls, speed).Keys == m.Keys + ls
    ensures forall l :: l in ls ==> SetAll(m, ls, speed)[l] == speed
    ensures forall l :: l in m && l !in ls ==> SetAll(m, ls, speed)[l] == m[l]
  {
  }

  /** Setting one more lane. */
  lemma SetAllAdd(m: map<nat, real>, ls: set<nat>, l: nat, speed: real)
    ensures SetAll(m, ls + {l}, speed) == SetAll(m, ls, speed)[l := speed]
  {
    assert SetAll(m, ls + {l}, speed).Keys == SetAll(m, ls, speed)[l := speed].Keys;
  }

  /** SetSpeedLimit(segment, direction, speed): on a customisable segment whose
      NetInfo has lanes and for a speed the range check accepts, the override of
      every customisable lane of the segment with that direction is set; other
      lanes keep theirs. */
  method SetDirectionSpeedLimit(flags: LaneSpeedFlags, s: Segment, dir: Direction, speed: real,
                                validRange: real -> bool, nextLane: nat -> nat)
    returns (ok: bool)
    requires Inspectable(s)
    modifies flags
    ensures ok <==> MayHaveCustomSegmentSpeedLimits(s) && validRange(speed) && s.info.value.lanes.Some?
    ensures !ok ==> flags.laneSpeed == old(flags.laneSpeed)
    ensures ok ==>
      var lanes := s.info.value.lanes.value;
      flags.laneSpeed == SetAll(old(flags.laneSpeed), Matching(LaneChain(nextLane, s.firstLane, |lanes|), lanes, dir), speed)
  {
    if !MayHaveCustomSegmentSpeedLimits(s) {
      return false;
    }
    if !validRange(speed) {
      return false;
    }
    if s.info.value.lanes.None? {
      return false;
    }
    WriteMatching(flags, s.info.value.lanes.value, s.firstLane, dir, speed, nextLane);
    return true;
  }

  /** The lane walk of the per-direction update. */
  method WriteMatching(flags: LaneSpeedFlags, lanes: seq<LaneInfo>, firstLane: nat, dir: Direction,
                       speed: real, nextLane: nat -> nat)
    modifies flags
    ensures flags.laneSpeed == SetAll(old(flags.laneSpeed), Matching(LaneChain(nextLane, firstLane, |lanes|), lanes, dir), speed)
  {
    ghost var chain := LaneChain(nextLane, firstLane, |lanes|);
    ghost var before := flags.laneSpeed;
    var curLaneId := firstLane;
    var laneIndex := 0;
    while laneIndex < |lanes| && curLaneId != 0
      invariant 0 <= laneIndex <= |lanes| && laneIndex <= |chain|
      invariant chain[laneIndex..] == LaneChain(nextLane, curLaneId, |lanes| - laneIndex)
      invariant flags.laneSpeed == SetAll(before, MatchedUpTo(chain, lanes, dir, laneIndex), speed)
      decreases |lanes| - laneIndex
    {
      LaneChainStep(nextLane, curLaneId, |lanes| - laneIndex);
      assert chain[laneIndex] == chain[laneIndex..][0] == curLaneId;
      assert chain[laneIndex + 1..] == chain[laneIndex..][1..];
      if LaneMatches(lanes[laneIndex], dir) {
        SetAllAdd(before, MatchedUpTo(chain, lanes, dir, laneIndex), curLaneId, speed);
        flags.laneSpeed := flags.laneSpeed[curLaneId := speed];
      }
      laneIndex := laneIndex + 1;
      curLaneId := nextLane(curLaneId);
    }
    assert chain[laneIndex..] == [];
  }

  /** After a per-direction update every matching lane reports the new speed,
      and every other lane keeps what it reported. */
  lemma DirectionUpdateIsRead(overrides: map<nat, real>, s: Segment, dir: Direction, speed: real,
                              nextLane: nat -> nat, laneSegment: nat -> nat, segments: nat -> Segment, laneId: nat)
    requires Inspectable(s) && MayHaveCustomSegmentSpeedLimits(s) && s.info.value.lanes.Some?
    requires LanesReadable(segments(laneSegment(laneId)))
    ensures var lanes := s.info.value.lanes.value;
      var updated := SetAll(overrides, Matching(LaneChain(nextLane, s.firstLane, |lanes|), lanes, dir), speed);
      && (laneId in Matching(LaneChain(nextLane, s.firstLane, |lanes|), lanes, dir) ==>
            CustomSpeedLimit(laneId, updated, laneSegment, segments, nextLane) == speed)
      && (laneId !in Matching(LaneChain(nextLane, s.firstLane, |lanes|), lanes, dir) ==>
            CustomSpeedLimit(laneId, updated, laneSegment, segments, nextLane)
            == CustomSpeedLimit(laneId, overrides, laneSegment, segments, nextLane))
  {
    var lanes := s.info.value.lanes.value;
    SetAllMeaning(overrides, Matching(LaneChain(nextLane, s.firstLane, |lanes|), lanes, dir), speed);
  }

  // ---------------------------------------------------------------------
  // NetInfos and the manager's tables
  // ---------------------------------------------------------------------

  /** A NetInfo: its name (which may be missing), whether it has a NetAI, whether
      its placement style is procedural, and its lanes (which may be missing),
      whose game speed limits an override rewrites in place. */
  class Info {
    const name: Option<string>
    const hasNetAI: bool
    const procedural: bool
    const lanes: array?<LaneInfo>

    constructor(name: Option<string>, hasNetAI: bool, procedural: bool, lanes: array?<LaneInfo>)
      ensures this.name == name && this.hasNetAI == hasNetAI
      ensures this.procedural == procedural && this.lanes == lanes
    {
      this.name := name;
      this.hasNetAI := hasNetAI;
      this.procedural := procedural;
      this.lanes := lanes;
    }
  }

  /** The largest value, the first one on ties, as the loop keeps it. */
  function Largest(xs: seq<real>): real
    requires xs != []
  {
    if |xs| == 1 then xs[0]
    else if xs[|xs| - 1] > Largest(xs[..|xs| - 1]) then xs[|xs| - 1]
    else Largest(xs[..|xs| - 1])
  }

  /** The largest value is one of the values and at least every one of them. */
  lemma {:induction false} LargestIsMaximum(xs: seq<real>)
    requires xs != []
    ensures Largest(xs) in xs
    ensures forall i :: 0 <= i < |xs| ==> xs[i] <= Largest(xs)
  {
    if |xs| > 1 {
      var init := xs[..|xs| - 1];
      LargestIsMaximum(init);
      assert Largest(init) == init[IndexIn(init, Largest(init))];
      forall i | 0 <= i < |xs| - 1
        ensures xs[i] <= Largest(xs)
      {
        assert xs[i] == init[i];
      }
    }
  }

  /** An index at which a member of a sequence occurs. */
  function IndexIn(xs: seq<real>, x: real): (i: nat)
    requires x in xs
    ensures i < |xs| && xs[i] == x
  {
    if xs[0] == x then 0 else IndexIn(xs[1..], x) + 1
  }

  /** GetVanillaNetInfoSpeedLimit: 0 for a missing NetInfo, NetAI or name and
      for a name without stored defaults; otherwise the largest stored lane
      default, or 0 when there are none. */
  function VanillaNetInfoSpeedLimit(vanilla: map<string, seq<real>>, info: Info?): real
  {
    if info == null || !info.hasNetAI || info.name.None? || info.name.value !in vanilla then 0.0
    else if vanilla[info.name.value] == [] then 0.0
    else Largest(vanilla[info.name.value])
  }

  /** The default of a NetInfo with stored lane defaults is one of them and at
      least all of them. */
  lemma VanillaIsLargestDefault(vanilla: map<string, seq<real>>, info: Info)
    requires info.hasNetAI && info.name.Some? && info.name.value in vanilla && vanilla[info.name.value] != []
    ensures VanillaNetInfoSpeedLimit(vanilla, info) in vanilla[info.name.value]
    ensures forall i :: 0 <= i < |vanilla[info.name.value]| ==>
              vanilla[info.name.value][i] <= VanillaNetInfoSpeedLimit(vanilla, info)
  {
    LargestIsMaximum(vanilla[info.name.value]);
  }

  /** GetCustomNetInfoSpeedLimit: -1 for a missing NetInfo or name; the stored
      override of the name when there is one; otherwise the default. */
  function CustomNetInfoSpeedLimit(custom: map<string, real>, vanilla: map<string, seq<real>>, info: Info?): real
  {
    if info == null || info.name.None? then -1.0
    else if info.name.value in custom then custom[info.name.value]
    else VanillaNetInfoSpeedLimit(vanilla, info)
  }

  /** The lanes after UpdateNetInfoGameSpeedLimit: every motorised lane gets the
      game speed limit, every other lane is kept. */
  function UpdatedLanes(lanes: seq<LaneInfo>, gameSpeedLimit: real): (r: seq<LaneInfo>)
    ensures |r| == |lanes|
    ensures forall i :: 0 <= i < |lanes| && Motorised(lanes[i]) ==> r[i] == lanes[i].(speedLimit := gameSpeedLimit)
    ensures forall i :: 0 <= i < |lanes| && !Motorised(lanes[i]) ==> r[i] == lanes[i]
  {
    seq(|lanes|, i requires 0 <= i < |lanes| =>
      if Motorised(lanes[i]) then lanes[i].(speedLimit := gameSpeedLimit) else lanes[i])
  }

  /** Updating with the same limit again changes nothing, and afterwards every
      customisable lane carries that limit. */
  lemma UpdatedLanesIdempotent(lanes: seq<LaneInfo>, g: real)
    ensures UpdatedLanes(UpdatedLanes(lanes, g), g) == UpdatedLanes(lanes, g)
    ensures forall i :: 0 <= i < |lanes| && MayHaveCustomLaneSpeedLimits(lanes[i]) ==>
              UpdatedLanes(lanes, g)[i].speedLimit == g
  {
    var u := UpdatedLanes(lanes, g);
    assert forall i :: 0 <= i < |u| ==> Motorised(u[i]) == Motorised(lanes[i]);
  }

  /** The child overrides as the propagation loop writes them, one child name
      after the other, skipping names without a registered NetInfo. */
  function Propagated(m: map<string, real>, children: seq<string>, byName: map<string, Info>, v: real): map<string, real>
  {
    if children == [] then m
    else
      var p := Propagated(m, children[..|children| - 1], byName, v);
      if children[|children| - 1] in byName then p[children[|children| - 1] := v] else p
  }

  /** The overrides after SetCustomNetInfoSpeedLimit. */
  function NewOverrides(custom: map<string, real>, name: string, children: seq<string>,
                        byName: map<string, Info>, v: real): map<string, real>
  {
    Propagated(custom[name := v], children, byName, v)
  }

  /** The propagation sets exactly the registered child names to the override
      and keeps every other entry. */
  lemma {:induction false} PropagatedMeaning(m: map<string, real>, children: seq<string>, byName: map<string, Info>, v: real)
    ensures Propagated(m, children, byName, v) == m + map c | c in children && c in byName :: v
  {
    if children != [] {
      var init := children[..|children| - 1];
      var last := children[|children| - 1];
      PropagatedMeaning(m, init, byName, v);
      assert children == init + [last];
      var r := m + map c | c in children && c in byName :: v;
      var q := m + map c | c in init && c in byName :: v;
      if last in byName {
        assert r == q[last := v];
      } else {
        assert r == q;
      }
    }
  }

  /** The propagation of one more child name. */
  lemma PropagatedStep(m: map<string, real>, children: seq<string>, byName: map<string, Info>, v: real, k: nat)
    requires k < |children|
    ensures Propagated(m, children[..k + 1], byName, v)
         == if children[k] in byName then Propagated(m, children[..k], byName, v)[children[k] := v]
            else Propagated(m, children[..k], byName, v)
  {
    assert children[..k + 1][..k] == children[..k];
  }

  /** After SetCustomNetInfoSpeedLimit the NetInfo's name and each registered
      child name carry the new override, and every other name keeps its own. */
  lemma NewOverridesMeaning(custom: map<string, real>, name: string, children: seq<string>,
                            byName: map<string, Info>, v: real)
    ensures var r := NewOverrides(custom, name, children, byName, v);
      && r.Keys == custom.Keys + {name} + (set c | c in children && c in byName)
      && r[name] == v
      && (forall c :: c in children && c in byName ==> r[c] == v)
      && (forall k :: k in custom && k != name && !(k in children && k in byName) ==> r[k] == custom[k])
  {
    PropagatedMeaning(custom[name := v], children, byName, v);
  }

  function ChildrenOf(childNames: map<string, seq<string>>, name: string): seq<string>
  {
    if name in childNames then childNames[name] else []
  }

  /** After an override is set on a NetInfo, reading the override of that
      NetInfo, or of any registered child NetInfo whose name is the child name,
      yields the new value. */
  lemma SetThenGet(custom: map<string, real>, vanilla: map<string, seq<real>>, childNames: map<string, seq<string>>,
                   byName: map<string, Info>, info: Info, v: real)
    requires info.name.Some?
    ensures var r := NewOverrides(custom, info.name.value, ChildrenOf(childNames, info.name.value), byName, v);
      && CustomNetInfoSpeedLimit(r, vanilla, info) == v
      && forall c :: c in ChildrenOf(childNames, info.name.value) && c in byName && byName[c].name == Some(c) ==>
           CustomNetInfoSpeedLimit(r, vanilla, byName[c]) == v
  {
    NewOverridesMeaning(custom, info.name.value, ChildrenOf(childNames, info.name.value), byName, v);
  }

  /** The parent/child relation of the identification pass: the child is
      procedural and its name strictly extends the parent's. */
  predicate IsParent(parent: Info, child: Info)
  {
    && parent.name.Some? && child.name.Some?
    && child.procedural
    && child.name.value != parent.name.value
    && |parent.name.value| <= |child.name.value|
    && child.name.value[..|parent.name.value|] == parent.name.value
  }

  /** The first index from `y` on holding a parent of `child`. */
  function FirstParent(infos: seq<Info>, child: Info, y: nat): (r: Option<nat>)
    ensures r.Some? ==> y <= r.value < |infos| && IsParent(infos[r.value], child)
    ensures r.Some? ==> forall j :: y <= j < r.value ==> !IsParent(infos[j], child)
    ensures r.None? ==> forall j :: y <= j < |infos| ==> !IsParent(infos[j], child)
    decreases |infos| - y
  {
    if y >= |infos| then None
    else if IsParent(infos[y], child) then Some(y)
    else FirstParent(infos, child, y + 1)
  }

  /** The state of the identification pass. */
  datatype Filing = Filing(infos: seq<Info>, children: map<string, seq<string>>, byName: map<string, Info>)

  /** The list without its element at `x`. */
  function RemoveAt(xs: seq<Info>, x: nat): (r: seq<Info>)
    requires x < |xs|
    ensures |r| == |xs| - 1
    ensures forall i :: 0 <= i < |r| ==> r[i] == if i < x then xs[i] else xs[i + 1]
  {
    xs[..x] + xs[x + 1..]
  }

  /** Removing one element keeps the others. */
  lemma RemoveAtMembers(xs: seq<Info>, x: nat)
    requires x < |xs|
    ensures forall z :: z in RemoveAt(xs, x) ==> z in xs
    ensures forall z :: z in xs ==> z in RemoveAt(xs, x) || z == xs[x]
  {
    var r := RemoveAt(xs, x);
    forall z | z in xs
      ensures z in r || z == xs[x]
    {
      var i :| 0 <= i < |xs| && xs[i] == z;
      if i < x {
        assert r[i] == z;
      } else if i > x {
        assert r[i - 1] == z;
      }
    }
  }

  /** One step of the pass: the info at `x` is filed as a child of the info at
      `y`, registered by name and removed from the list. */
  function FileChild(f: Filing, x: nat, y: nat): Filing
    requires x < |f.infos| && y < |f.infos|
    requires f.infos[x].name.Some? && f.infos[y].name.Some?
  {
    var p := f.infos[y].name.value;
    var n := f.infos[x].name.value;
    Filing(RemoveAt(f.infos, x), f.children[p := ChildrenOf(f.children, p) + [n]], f.byName[n := f.infos[x]])
  }

  /** The identification pass from position `x` of the current list on: an
      info with a parent in the current list is filed under the first parent
      and removed, the pass staying at `x`; any other info is kept and the pass
      moves on. */
  function Identify(f: Filing, x: nat): (r: Filing)
    requires forall i :: 0 <= i < |f.infos| ==> f.infos[i].name.Some?
    decreases |f.infos| - x
  {
    if x >= |f.infos| then f
    else
      match FirstParent(f.infos, f.infos[x], 0)
      case None => Identify(f, x + 1)
      case Some(y) => Identify(FileChild(f, x, y), x)
  }

  /** One turn of the pass, spelled out for the loop that runs it. */
  lemma IdentifyTurn(f: Filing, x: nat)
    requires forall i :: 0 <= i < |f.infos| ==> f.infos[i].name.Some?
    requires x < |f.infos|
    ensures FirstParent(f.infos, f.infos[x], 0).None? ==> Identify(f, x) == Identify(f, x + 1)
    ensures FirstParent(f.infos, f.infos[x], 0).Some? ==>
      Identify(f, x) == Identify(FileChild(f, x, FirstParent(f.infos, f.infos[x], 0).value), x)
  {
  }

  /** The child name strictly extends the parent name. */
  predicate Extends(child: string, parent: string)
  {
    |parent| < |child| && child[..|parent|] == parent
  }

  /** Every child name filed under a parent strictly extends the parent's name. */
  ghost predicate ChildrenExtend(children: map<string, seq<string>>)
  {
    forall p, i :: p in children && 0 <= i < |children[p]| ==> Extends(children[p][i], p)
  }

  /** The name is filed as a child of some parent. */
  ghost predicate Filed(children: map<string, seq<string>>, n: string)
  {
    exists p :: p in children && n in children[p]
  }

  /** Every child list of `a` is a prefix of the same parent's list in `b`. */
  ghost predicate Grows(a: map<string, seq<string>>, b: map<string, seq<string>>)
  {
    forall p :: p in a ==> p in b && a[p] <= b[p]
  }

  /** A filed name stays filed as the lists grow. */
  lemma GrowsKeepsFiled(a: map<string, seq<string>>, b: map<string, seq<string>>, n: string)
    requires Grows(a, b) && Filed(a, n)
    ensures Filed(b, n)
  {
    var p :| p in a && n in a[p];
    var i :| 0 <= i < |a[p]| && a[p][i] == n;
    assert b[p][i] == n;
  }

  lemma GrowsTransitive(a: map<string, seq<string>>, b: map<string, seq<string>>, c: map<string, seq<string>>)
    requires Grows(a, b) && Grows(b, c)
    ensures Grows(a, c)
  {
    forall p | p in a
      ensures p in c && a[p] <= c[p]
    {
      assert a[p] == b[p][..|a[p]|];
      assert b[p] == c[p][..|b[p]|];
      assert a[p] == c[p][..|a[p]|];
    }
  }

  /** Filing a name that extends its parent's keeps every child name extending
      its parent's, only lengthens the parent's list, and files the name. */
  lemma FileKeepsExtending(children: map<string, seq<string>>, p: string, n: string)
    requires ChildrenExtend(children)
    requires Extends(n, p)
    ensures var c2 := children[p := ChildrenOf(children, p) + [n]];
      ChildrenExtend(c2) && Grows(children, c2) && Filed(c2, n)
  {
    var c2 := children[p := ChildrenOf(children, p) + [n]];
    forall q, i | q in c2 && 0 <= i < |c2[q]|
      ensures Extends(c2[q][i], q)
    {
      if q == p && i == |ChildrenOf(children, p)| {
        assert c2[q][i] == n;
      } else if q == p {
        assert c2[q][i] == children[p][i];
      }
    }
    assert c2[p][|c2[p]| - 1] == n;
  }

  /** The pass only lengthens child lists, and every child name it files
      extends its parent's name. */
  lemma {:induction false} IdentifyFilesChildren(f: Filing, x: nat)
    requires forall i :: 0 <= i < |f.infos| ==> f.infos[i].name.Some?
    requires ChildrenExtend(f.children)
    ensures Grows(f.children, Identify(f, x).children)
    ensures ChildrenExtend(Identify(f, x).children)
    decreases |f.infos| - x
  {
    if x < |f.infos| {
      match FirstParent(f.infos, f.infos[x], 0)
      case None =>
        IdentifyFilesChildren(f, x + 1);
      case Some(y) =>
        var g := FileChild(f, x, y);
        FileKeepsExtending(f.children, f.infos[y].name.value, f.infos[x].name.value);
        IdentifyFilesChildren(g, x);
        GrowsTransitive(f.children, g.children, Identify(g, x).children);
    }
  }

  /** What the pass guarantees of the list: it keeps only infos it started
      with, keeps every non-procedural one, and every info it removes is
      procedural and filed as a child. */
  lemma {:induction false} IdentifyFacts(f: Filing, x: nat)
    requires forall i :: 0 <= i < |f.infos| ==> f.infos[i].name.Some?
    requires ChildrenExtend(f.children)
    ensures var r := Identify(f, x);
      && (forall z :: z in r.infos ==> z in f.infos)
      && (forall z :: z in f.infos && !z.procedural ==> z in r.infos)
      && (forall z :: z in f.infos && z !in r.infos ==> z.procedural && Filed(r.children, z.name.value))
    decreases |f.infos| - x
  {
    if x < |f.infos| {
      match FirstParent(f.infos, f.infos[x], 0)
      case None =>
        IdentifyFacts(f, x + 1);
      case Some(y) =>
        var info := f.infos[x];
        var g := FileChild(f, x, y);
        FileKeepsExtending(f.children, f.infos[y].name.value, info.name.value);
        RemoveAtMembers(f.infos, x);
        IdentifyFacts(g, x);
        IdentifyFilesChildren(g, x);
        GrowsKeepsFiled(g.children, Identify(g, x).children, info.name.value);
    }
  }

  /** No info of the list has a parent in the list. */
  predicate NoParentLeft(infos: seq<Info>)
  {
    forall i, j :: 0 <= i < |infos| && 0 <= j < |infos| ==> !IsParent(infos[j], infos[i])
  }

  /** The pass leaves no info with a parent among the infos it keeps, provided
      the infos before `x` have none. */
  lemma {:induction false} IdentifyLeavesNoParent(f: Filing, x: nat)
    requires forall i :: 0 <= i < |f.infos| ==> f.infos[i].name.Some?
    requires forall i, j :: 0 <= i < x && i < |f.infos| && 0 <= j < |f.infos| ==> !IsParent(f.infos[j], f.infos[i])
    ensures NoParentLeft(Identify(f, x).infos)
    decreases |f.infos| - x
  {
    if x < |f.infos| {
      match FirstParent(f.infos, f.infos[x], 0)
      case None =>
        IdentifyLeavesNoParent(f, x + 1);
      case Some(y) =>
        var g := FileChild(f, x, y);
        forall i, j | 0 <= i < x && i < |g.infos| && 0 <= j < |g.infos|
          ensures !IsParent(g.infos[j], g.infos[i])
        {
          assert g.infos[i] == f.infos[i];
          assert g.infos[j] == if j < x then f.infos[j] else f.infos[j + 1];
        }
        IdentifyLeavesNoParent(g, x);
    } else {
      assert NoParentLeft(f.infos);
    }
  }

  /** Every info of `start` is still in `infos`, or has a name strictly
      extending the name of an info in `infos`. */
  ghost predicate Covered(start: seq<Info>, infos: seq<Info>)
  {
    forall z :: z in start ==> z in infos || exists a :: a in infos && Named(a, z)
  }

  /** The info `a` has a name, and `z` has one that strictly extends it. */
  predicate Named(a: Info, z: Info)
  {
    a.name.Some? && z.name.Some? && Extends(z.name.value, a.name.value)
  }

  /** Removing an info that has a parent in the list keeps every info of the
      starting list covered. */
  lemma FileChildCovers(start: seq<Info>, f: Filing, x: nat, y: nat)
    requires forall i :: 0 <= i < |f.infos| ==> f.infos[i].name.Some?
    requires x < |f.infos| && y < |f.infos| && IsParent(f.infos[y], f.infos[x])
    requires Covered(start, f.infos)
    ensures Covered(start, FileChild(f, x, y).infos)
  {
    var w := f.infos[x];
    var p := f.infos[y];
    var r := FileChild(f, x, y).infos;
    RemoveAtMembers(f.infos, x);
    assert y != x;
    assert p in r by {
      if y < x { assert r[y] == p; } else { assert r[y - 1] == p; }
    }
    forall z | z in start
      ensures z in r || exists a :: a in r && Named(a, z)
    {
      if z == w {
        assert Named(p, z);
      } else if z in f.infos {
        assert z in r;
      } else {
        var a :| a in f.infos && Named(a, z);
        if a == w {
          assert Named(p, z);
        } else {
          assert a in r;
        }
      }
    }
  }

  /** Along the pass every info of the starting list stays covered. */
  lemma {:induction false} IdentifyCovers(start: seq<Info>, f: Filing, x: nat)
    requires forall i :: 0 <= i < |f.infos| ==> f.infos[i].name.Some?
    requires Covered(start, f.infos)
    ensures Covered(start, Identify(f, x).infos)
    decreases |f.infos| - x
  {
    if x < |f.infos| {
      match FirstParent(f.infos, f.infos[x], 0)
      case None =>
        IdentifyCovers(start, f, x + 1);
      case Some(y) =>
        FileChildCovers(start, f, x, y);
        IdentifyCovers(start, FileChild(f, x, y), x);
    }
  }

  /** The converse half of the pass: every procedural info that has a parent
      in the main list is removed from the list, and the infos kept have no
      parent among themselves. */
  lemma IdentifyRemovesEveryChild(f: Filing)
    requires forall i :: 0 <= i < |f.infos| ==> f.infos[i].name.Some?
    ensures NoParentLeft(Identify(f, 0).infos)
    ensures forall z, p :: z in f.infos && p in f.infos && IsParent(p, z) ==> z !in Identify(f, 0).infos
  {
    var r := Identify(f, 0).infos;
    IdentifyLeavesNoParent(f, 0);
    IdentifyCovers(f.infos, f, 0);
    forall z, p | z in f.infos && p in f.infos && IsParent(p, z)
      ensures z !in r
    {
      if p !in r {
        var a :| a in r && Named(a, p);
        assert z.name.value[..|a.name.value|] == a.name.value by {
          assert z.name.value[..|p.name.value|] == p.name.value;
        }
        assert IsParent(a, z);
      }
    }
  }

  /** The info at `x` with a parent in the current list is filed under the
      name of the first such parent: the pass appends its name to that
      parent's child list, and no earlier info of the list is its parent. */
  lemma IdentifyFilesUnderFirstParent(f: Filing, x: nat, y: nat)
    requires forall i :: 0 <= i < |f.infos| ==> f.infos[i].name.Some?
    requires ChildrenExtend(f.children)
    requires x < |f.infos| && FirstParent(f.infos, f.infos[x], 0) == Some(y)
    ensures forall j :: 0 <= j < y ==> !IsParent(f.infos[j], f.infos[x])
    ensures var p := f.infos[y].name.value;
      ChildrenOf(f.children, p) + [f.infos[x].name.value] <= ChildrenOf(Identify(f, x).children, p)
  {
    var g := FileChild(f, x, y);
    var p := f.infos[y].name.value;
    FileKeepsExtending(f.children, p, f.infos[x].name.value);
    IdentifyFilesChildren(g, x);
    assert p in g.children;
  }

  /** The lane array holds its lanes as they were, or as rewritten with `g`. */
  ghost predicate Settled(a: array<LaneInfo>, before: seq<LaneInfo>, g: real)
    reads a
  {
    a[..] == before || a[..] == UpdatedLanes(before, g)
  }

  /** The lane array holds its lanes as rewritten with `g`. */
  ghost predicate Rewritten(a: array<LaneInfo>, before: seq<LaneInfo>, g: real)
    reads a
  {
    a[..] == UpdatedLanes(before, g)
  }

  /** The manager's tables. */
  class SpeedLimitManager {
    /** The default speed limit of every lane of each main NetInfo, by name. */
    var vanillaLimits: map<string, seq<real>>
    /** The child NetInfo names of each customisable NetInfo, by name. */
    var childNames: map<string, seq<string>>
    /** The NetInfos whose speed limit can be customised. */
    var customizable: seq<Info>
    /** The override of each NetInfo, by name. */
    var customLimits: map<string, real>
    /** Every main and child NetInfo, by name. */
    var infoByName: map<string, Info>

    constructor()
      ensures vanillaLimits == map[] && childNames == map[] && customizable == []
      ensures customLimits == map[] && infoByName == map[]
    {
      vanillaLimits, childNames, customizable, customLimits, infoByName := map[], map[], [], map[], map[];
    }

    /** GetVanillaNetInfoSpeedLimit, with the running maximum over the lane defaults. */
    method GetVanillaNetInfoSpeedLimit(info: Info?) returns (r: real)
      ensures r == VanillaNetInfoSpeedLimit(vanillaLimits, info)
    {
      if info == null || !info.hasNetAI || info.name.None? {
        return 0.0;
      }
      if info.name.value !in vanillaLimits {
        return 0.0;
      }
      var limits := vanillaLimits[info.name.value];
      var best: Option<real> := None;
      for i := 0 to |limits|
        invariant i == 0 <==> best.None?
        invariant i > 0 ==> best == Some(Largest(limits[..i]))
      {
        assert limits[..i + 1][..i] == limits[..i];
        if best.None? || limits[i] > best.value {
          best := Some(limits[i]);
        }
      }
      assert limits[..|limits|] == limits;
      return if best.Some? then best.value else 0.0;
    }

    /** GetCustomNetInfoSpeedLimit. */
    method GetCustomNetInfoSpeedLimit(info: Info?) returns (r: real)
      ensures r == CustomNetInfoSpeedLimit(customLimits, vanillaLimits, info)
    {
      if info == null || info.name.None? {
        return -1.0;
      }
      if info.name.value in customLimits {
        return customLimits[info.name.value];
      }
      r := GetVanillaNetInfoSpeedLimit(info);
    }

    /** The lane arrays an override of `info` rewrites: its own and those of its
        registered children. */
    ghost function Targets(info: Info?): set<array<LaneInfo>>
      reads this
    {
      if info == null || info.name.None? then {}
      else
        (if info.lanes != null then {info.lanes} else {})
        + set c | c in ChildrenOf(childNames, info.name.value) && HasChildLanes(c) :: infoByName[c].lanes
    }

    /** The name is registered with a named NetInfo that has lanes. */
    predicate HasChildLanes(c: string)
      reads this
    {
      c in infoByName && infoByName[c].name.Some? && infoByName[c].lanes != null
    }

    /** SetCustomNetInfoSpeedLimit: the override is stored for the NetInfo and for
        each child name registered in the NetInfo table, and the game speed
        limit of the motorised lanes of the NetInfo and of those children is
        rewritten. A missing NetInfo or name changes nothing. */
    method SetCustomNetInfoSpeedLimit(info: Info?, v: real)
      modifies this, Targets(info)
      ensures vanillaLimits == old(vanillaLimits) && childNames == old(childNames)
      ensures customizable == old(customizable) && infoByName == old(infoByName)
      ensures info == null || info.name.None? ==> customLimits == old(customLimits)
      ensures info != null && info.name.Some? ==>
        customLimits == NewOverrides(old(customLimits), info.name.value, ChildrenOf(childNames, info.name.value), infoByName, v)
      ensures info != null && info.name.Some? && info.lanes != null ==>
        info.lanes[..] == UpdatedLanes(old(info.lanes[..]), ToGameSpeedLimit(v))
      ensures info != null && info.name.Some? ==>
        forall c :: c in ChildrenOf(childNames, info.name.value) && HasChildLanes(c) ==>
          infoByName[c].lanes[..] == UpdatedLanes(old(infoByName[c].lanes[..]), ToGameSpeedLimit(v))
    {
      if info == null || info.name.None? {
        return;
      }
      var name := info.name.value;
      var children := ChildrenOf(childNames, name);
      ghost var all := Targets(info);
      ghost var before := map a | a in all :: a[..];
      var g := ToGameSpeedLimit(v);
      customLimits := customLimits[name := v];
      UpdateNetInfoGameSpeedLimit(info, g);
      assert forall c :: c in children && HasChildLanes(c) ==> infoByName[c].lanes in all;
      PropagateChildren(children, v, g, all, before);
    }

    /** The propagation loop of SetCustomNetInfoSpeedLimit over the child names. */
    method PropagateChildren(children: seq<string>, v: real, g: real, ghost all: set<array<LaneInfo>>,
                             ghost before: map<array<LaneInfo>, seq<LaneInfo>>)
      requires forall c :: c in children && HasChildLanes(c) ==> infoByName[c].lanes in all
      requires all <= before.Keys
      requires forall a :: a in all ==> Settled(a, before[a], g)
      modifies this, all
      ensures vanillaLimits == old(vanillaLimits) && childNames == old(childNames)
      ensures customizable == old(customizable) && infoByName == old(infoByName)
      ensures customLimits == Propagated(old(customLimits), children, infoByName, v)
      ensures forall a :: a in all ==> Settled(a, before[a], g)
      ensures forall a :: a in all && old(Rewritten(a, before[a], g)) ==> Rewritten(a, before[a], g)
      ensures forall c :: c in children && HasChildLanes(c) ==>
                infoByName[c].lanes in before && Rewritten(infoByName[c].lanes, before[infoByName[c].lanes], g)
    {
      var k := 0;
      while k < |children|
        invariant 0 <= k <= |children|
        invariant vanillaLimits == old(vanillaLimits) && childNames == old(childNames)
        invariant customizable == old(customizable) && infoByName == old(infoByName)
        invariant customLimits == Propagated(old(customLimits), children[..k], infoByName, v)
        invariant forall a :: a in all ==> Settled(a, before[a], g)
        invariant forall a :: a in all && old(Rewritten(a, before[a], g)) ==> Rewritten(a, before[a], g)
        invariant forall c :: c in children[..k] && HasChildLanes(c) ==>
                    Rewritten(infoByName[c].lanes, before[infoByName[c].lanes], g)
      {
        var c := children[k];
        PropagatedStep(old(customLimits), children, infoByName, v, k);
        assert children[..k + 1] == children[..k] + [c];
        PropagateChild(c, v, g, all, before);
        k := k + 1;
      }
      assert children[..k] == children;
    }

    /** One step of the propagation loop: the child name's override and lanes. */
    method PropagateChild(c: string, v: real, g: real, ghost all: set<array<LaneInfo>>,
                          ghost before: map<array<LaneInfo>, seq<LaneInfo>>)
      requires HasChildLanes(c) ==> infoByName[c].lanes in all
      requires all <= before.Keys
      requires forall a :: a in all ==> Settled(a, before[a], g)
      modifies this, if HasChildLanes(c) then {infoByName[c].lanes} else {}
      ensures vanillaLimits == old(vanillaLimits) && childNames == old(childNames)
      ensures customizable == old(customizable) && infoByName == old(infoByName)
      ensures customLimits == if c in infoByName then old(customLimits)[c := v] else old(customLimits)
      ensures forall a :: a in all ==> Settled(a, before[a], g)
      ensures HasChildLanes(c) ==> Rewritten(infoByName[c].lanes, before[infoByName[c].lanes], g)
      ensures forall a :: a in all && (!HasChildLanes(c) || a != infoByName[c].lanes) ==> a[..] == old(a[..])
    {
      if c in infoByName {
        customLimits := customLimits[c := v];
        var child := infoByName[c];
        if child.name.Some? && child.lanes != null {
          UpdatedLanesIdempotent(before[child.lanes], g);
        }
        UpdateNetInfoGameSpeedLimit(child, g);
      }
    }

    /** UpdateNetInfoGameSpeedLimit: the loop over the NetInfo's lanes; a
        missing NetInfo, name or lane array changes nothing. */
    method UpdateNetInfoGameSpeedLimit(info: Info?, g: real)
      modifies if info != null && info.name.Some? && info.lanes != null then {info.lanes} else {}
      ensures info != null && info.name.Some? && info.lanes != null ==>
        info.lanes[..] == UpdatedLanes(old(info.lanes[..]), g)
    {
      if info == null || info.name.None? || info.lanes == null {
        return;
      }
      var lanes := info.lanes;
      for i := 0 to lanes.Length
        invariant forall j :: 0 <= j < i ==> lanes[j] == UpdatedLanes(old(lanes[..]), g)[j]
        invariant forall j :: i <= j < lanes.Length ==> lanes[j] == old(lanes[j])
      {
        if Motorised(lanes[i]) {
          lanes[i] := lanes[i].(speedLimit := g);
        }
      }
      assert lanes[..] == UpdatedLanes(old(lanes[..]), g);
    }

    /** FindParent: the inner loop of the identification pass. */
    method FindParent(infos: seq<Info>, child: Info) returns (r: Option<nat>)
      ensures r == FirstParent(infos, child, 0)
    {
      var y := 0;
      while y < |infos|
        invariant 0 <= y <= |infos|
        invariant FirstParent(infos, child, 0) == FirstParent(infos, child, y)
      {
        if IsParent(infos[y], child) {
          return Some(y);
        }
        y := y + 1;
      }
      return None;
    }

    /** Files the info at `x` under the info at `y`: the child name is appended
        to the parent's list, the info is kept by its name, and it leaves the list. */
    method FileUnder(infos: seq<Info>, x: nat, y: nat) returns (rest: seq<Info>)
      requires x < |infos| && y < |infos| && infos[x].name.Some? && infos[y].name.Some?
      modifies this
      ensures Filing(rest, childNames, infoByName) == FileChild(Filing(infos, old(childNames), old(infoByName)), x, y)
      ensures vanillaLimits == old(vanillaLimits) && customLimits == old(customLimits)
    {
      var info := infos[x];
      var p := infos[y].name.value;
      childNames := childNames[p := ChildrenOf(childNames, p) + [info.name.value]];
      infoByName := infoByName[info.name.value := info];
      rest := RemoveAt(infos, x);
    }

    /** The parent/child pass at the end of OnBeforeLoadData over the sorted main
        NetInfos: it files children and leaves the customisable NetInfos. */
    method IdentifyParents(mainInfos: seq<Info>)
      requires forall i :: 0 <= i < |mainInfos| ==> mainInfos[i].name.Some?
      modifies this
      ensures Filing(customizable, childNames, infoByName) == Identify(Filing(mainInfos, old(childNames), old(infoByName)), 0)
      ensures vanillaLimits == old(vanillaLimits) && customLimits == old(customLimits)
    {
      var infos := mainInfos;
      var x := 0;
      while x < |infos|
        invariant forall i :: 0 <= i < |infos| ==> infos[i].name.Some?
        invariant Identify(Filing(infos, childNames, infoByName), x)
               == Identify(Filing(mainInfos, old(childNames), old(infoByName)), 0)
        invariant vanillaLimits == old(vanillaLimits) && customLimits == old(customLimits)
        decreases |infos| - x
      {
        ghost var before := Filing(infos, childNames, infoByName);
        IdentifyTurn(before, x);
        var info := infos[x];
        var parent := FindParent(infos, info);
        if parent.Some? {
          infos := FileUnder(infos, x, parent.value);
        } else {
          x := x + 1;
        }
      }
      customizable := infos;
    }
  }
}
