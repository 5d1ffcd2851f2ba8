/** Game types shared by the path finder and the speed-limit manager: lane and
    vehicle type flags, lane directions, path positions and lane descriptions.
    The numeric direction values are those of the game's NetInfo.Direction
    enumeration, which the path finder tests bit by bit. */
module Net {

  /** NetInfo.LaneType flags; a lane-type mask is a set of them. */
  datatype LaneType = Vehicle | Pedestrian | Parking | PublicTransport | CargoVehicle | TransportVehicle

  /** VehicleInfo.VehicleType flags; a vehicle-type mask is a set of them. */
  datatype VehicleType = Car | Metro | Train | Ship | Plane | Bicycle | Tram | Helicopter | Ferry | Monorail | CableCar

  /** NetSegment.Flags that the path finder combines into its ban and disable masks. */
  datatype SegmentFlag = CarBan | HeavyBan | WaitingPath | Collapsed | PathFailed | Flooded

  /** NetInfo.Direction as the byte the game stores. */
  type Direction = bv8

  const DirNone: Direction := 0
  const Forward: Direction := 1
  const Backward: Direction := 2
  const Both: Direction := 3
  const AvoidBackward: Direction := 7
  const AvoidForward: Direction := 11
  const Avoid: Direction := 12
  const AvoidBoth: Direction := 15

  /** NetInfo.InvertDirection: exchanges the forward and backward bits and the
      two avoid bits. */
  function InvertDirection(d: Direction): (r: Direction)
  {
    ((d & 1) << 1) | ((d & 2) >> 1) | ((d & 4) << 1) | ((d & 8) >> 1) | (d & 0xF0)
  }

  /** Inverting swaps the named directions pairwise and fixes the symmetric ones. */
  lemma InvertNamedDirections()
    ensures InvertDirection(Forward) == Backward && InvertDirection(Backward) == Forward
    ensures InvertDirection(AvoidForward) == AvoidBackward && InvertDirection(AvoidBackward) == AvoidForward
    ensures InvertDirection(DirNone) == DirNone && InvertDirection(Both) == Both
    ensures InvertDirection(Avoid) == Avoid && InvertDirection(AvoidBoth) == AvoidBoth
  {
  }

  /** Inverting twice gives the direction back. */
  lemma InvertInvolution(d: Direction)
    ensures InvertDirection(InvertDirection(d)) == d
  {
  }

  /** Inverting turns a forward bit into a backward bit and the other way round. */
  lemma InvertSwapsBits(d: Direction)
    ensures (InvertDirection(d) & Forward != 0) == (d & Backward != 0)
    ensures (InvertDirection(d) & Backward != 0) == (d & Forward != 0)
    ensures (InvertDirection(d) & Avoid != 0) == (d & Avoid != 0)
  {
  }

  /** PathUnit.Position: a segment id, a lane index in the segment and a byte
      offset along the lane (0 at the start node, 255 at the end node). */
  datatype Position = Position(segment: nat, offset: nat, lane: nat)

  /** The part of a NetInfo.Lane that the modelled code reads or writes. */
  datatype LaneInfo = LaneInfo(
    laneType: set<LaneType>,
    vehicleType: set<VehicleType>,
    speedLimit: real,
    finalDirection: Direction)
}
