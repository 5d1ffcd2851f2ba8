/** Small pure rules of the path finder: the per-request settings derived from
    the path unit's simulation flags, the direction a path position may be
    travelled in, and the speed used for the last stretch of a lane. */
module LaneRules {
  import opened Net

  /** The flags the path finder derives once per request before it searches. */
  datatype SearchSettings = SearchSettings(
    laneTypes: set<LaneType>,
    carBanMask: set<SegmentFlag>,
    ignoreBlocked: bool,
    stablePath: bool,
    randomParking: bool,
    transportVehicle: bool,
    ignoreCost: bool,
    disableMask: set<SegmentFlag>)

  /** True when bit `mask` of the simulation flags is set. */
  predicate HasBit(flags: bv8, mask: bv8)
  {
    flags & mask != 0
  }

  /** The settings block at the top of the search: the car-ban mask grows with
      bits 0x10 and 4, bits 0x20, 0x40 and 0x80 give the three booleans, a
      stable path or bit 8 ignores ticket costs, a clear bit 2 also disables
      flooded segments, and vehicle requests also search transport-vehicle lanes.
      The transport-vehicle test reads the request's lane types before they are widened. */
  function DeriveSettings(simulationFlags: bv8, requestLaneTypes: set<LaneType>): (s: SearchSettings)
    ensures requestLaneTypes <= s.laneTypes
    ensures CarBan in s.carBanMask && {Collapsed, PathFailed} <= s.disableMask
  {
    var ban := {CarBan}
      + (if HasBit(simulationFlags, 0x10) then {HeavyBan} else {})
      + (if HasBit(simulationFlags, 4) then {WaitingPath} else {});
    var stable := HasBit(simulationFlags, 0x40);
    var disable := {Collapsed, PathFailed} + (if !HasBit(simulationFlags, 2) then {Flooded} else {});
    var types := if Vehicle in requestLaneTypes then requestLaneTypes + {TransportVehicle} else requestLaneTypes;
    SearchSettings(
      types, ban,
      HasBit(simulationFlags, 0x20), stable, HasBit(simulationFlags, 0x80),
      TransportVehicle in requestLaneTypes,
      stable || HasBit(simulationFlags, 8),
      disable)
  }

  /** A stable path always ignores costs; only a clear bit 2 disables flooded
      segments; the ban and disable masks never hold anything but the flags named
      in the source; the lane types gain exactly TransportVehicle, and only for
      vehicle requests. */
  lemma SettingsMeaning(simulationFlags: bv8, requestLaneTypes: set<LaneType>)
    ensures var s := DeriveSettings(simulationFlags, requestLaneTypes);
      && (s.stablePath ==> s.ignoreCost)
      && (Flooded in s.disableMask <==> simulationFlags & 2 == 0)
      && s.carBanMask <= {CarBan, HeavyBan, WaitingPath}
      && s.disableMask <= {Collapsed, PathFailed, Flooded}
      && s.laneTypes - requestLaneTypes <= {TransportVehicle}
      && (TransportVehicle in s.laneTypes <==> TransportVehicle in requestLaneTypes || Vehicle in requestLaneTypes)
      && (s.transportVehicle ==> TransportVehicle in s.laneTypes)
  {
  }

  /** Setting more simulation-flag bits never shrinks the car-ban mask and never
      grows the disable mask. */
  lemma SettingsMonotone(f: bv8, g: bv8, requestLaneTypes: set<LaneType>)
    requires f & g == f
    ensures DeriveSettings(f, requestLaneTypes).carBanMask <= DeriveSettings(g, requestLaneTypes).carBanMask
    ensures DeriveSettings(g, requestLaneTypes).disableMask <= DeriveSettings(f, requestLaneTypes).disableMask
    ensures DeriveSettings(f, requestLaneTypes).ignoreCost ==> DeriveSettings(g, requestLaneTypes).ignoreCost
  {
    BitMonotone(f, g, 0x10);
    BitMonotone(f, g, 4);
    BitMonotone(f, g, 2);
    BitMonotone(f, g, 0x40);
    BitMonotone(f, g, 8);
  }

  /** A bit set in `f` is set in every `g` that has all of `f`'s bits. */
  lemma BitMonotone(f: bv8, g: bv8, mask: bv8)
    requires f & g == f
    ensures HasBit(f, mask) ==> HasBit(g, mask)
  {
    assert f & mask == (f & g) & mask == (f & mask) & g;
  }

  /** The direction and lane type a path position is searched with
      (GetLaneDirection): the lane's final direction, inverted on an inverted
      segment; None for a lane index beyond the segment's lanes. */
  function GetLaneDirection(pos: Position, lanes: seq<LaneInfo>, segmentInverted: bool): (r: (Direction, set<LaneType>))
    ensures pos.lane >= |lanes| ==> r == (DirNone, {})
    ensures pos.lane < |lanes| ==> r.1 == lanes[pos.lane].laneType
  {
    if pos.lane < |lanes| then
      var d := lanes[pos.lane].finalDirection;
      (if segmentInverted then InvertDirection(d) else d, lanes[pos.lane].laneType)
    else
      (DirNone, {})
  }

  /** An inverted segment reports the inverted direction of the same lane, so a
      lane that can be left forward on a plain segment is left backward on an
      inverted one. */
  lemma LaneDirectionOfInvertedSegment(pos: Position, lanes: seq<LaneInfo>)
    ensures GetLaneDirection(pos, lanes, true).0 == InvertDirection(GetLaneDirection(pos, lanes, false).0)
    ensures GetLaneDirection(pos, lanes, true).1 == GetLaneDirection(pos, lanes, false).1
    ensures (GetLaneDirection(pos, lanes, true).0 & Forward != 0) == (GetLaneDirection(pos, lanes, false).0 & Backward != 0)
  {
    InvertSwapsBits(GetLaneDirection(pos, lanes, false).0);
  }

  /** The lane's direction as seen in the segment's own orientation. */
  function EffectiveDirection(segmentInverted: bool, lane: LaneInfo): Direction
  {
    if segmentInverted then InvertDirection(lane.finalDirection) else lane.finalDirection
  }

  /** CalculateLaneSpeed: the lane's speed limit, scaled by 0.1 when the lane is
      travelled against the direction it strongly avoids, by 0.2 on any other
      avoid lane, and unscaled otherwise. */
  function CalculateLaneSpeed(startOffset: nat, endOffset: nat, segmentInverted: bool, lane: LaneInfo): (r: real)
    ensures r == lane.speedLimit || r == lane.speedLimit * 0.2 || r == lane.speedLimit * 0.1
    ensures EffectiveDirection(segmentInverted, lane) & Avoid == 0 ==> r == lane.speedLimit
  {
    var direction := EffectiveDirection(segmentInverted, lane);
    if direction & Avoid != 0 then
      if endOffset > startOffset && direction == AvoidForward then lane.speedLimit * 0.1
      else if endOffset < startOffset && direction == AvoidBackward then lane.speedLimit * 0.1
      else lane.speedLimit * 0.2
    else
      lane.speedLimit
  }

  /** For a positive speed limit the speed is never above the limit, and it is
      the full limit exactly when the lane has no avoid bit. */
  lemma LaneSpeedBounds(startOffset: nat, endOffset: nat, segmentInverted: bool, lane: LaneInfo)
    requires lane.speedLimit > 0.0
    ensures 0.0 < CalculateLaneSpeed(startOffset, endOffset, segmentInverted, lane) <= lane.speedLimit
    ensures CalculateLaneSpeed(startOffset, endOffset, segmentInverted, lane) == lane.speedLimit
            <==> EffectiveDirection(segmentInverted, lane) & Avoid == 0
  {
  }

  /** Travelling an inverted segment from a to b costs the same as travelling the
      same lane on a plain segment from b to a. */
  lemma LaneSpeedInversionSymmetry(a: nat, b: nat, lane: LaneInfo)
    ensures CalculateLaneSpeed(a, b, true, lane) == CalculateLaneSpeed(b, a, false, lane)
  {
    var d := lane.finalDirection;
    InvertInvolution(d);
    InvertSwapsBits(d);
    assert InvertDirection(d) == AvoidForward <==> d == AvoidBackward by {
      InvertNamedDirections();
    }
    assert InvertDirection(d) == AvoidBackward <==> d == AvoidForward by {
      InvertNamedDirections();
    }
  }
}
