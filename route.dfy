/** Route reconstruction after a successful search: from the winning entry the
    path finder follows the target recorded for each lane back to an end
    position, writes the positions twelve to a path unit, allocates a
    continuation unit whenever one fills up before the end, and finally gives
    every continuation unit its share of the route length. */
module Route {
  import opened Net
  import opened BucketQueue

  /** The number of positions a path unit holds. */
  const PositionsPerUnit: int := 12

  predicate IsEnd(p: Position, endA: Position, endB: Position)
  {
    p == endA || p == endB
  }

  /** The positions visited from `p` by following recorded targets, at most
      `fuel` of them, stopping after the first end position; the flag says
      whether an end position was reached. A lane the target table has no entry
      for ends the walk unsuccessfully. */
  function Trail(targets: seq<Position>, laneOf: Position -> nat, p: Position, endA: Position, endB: Position, fuel: nat)
    : (r: (seq<Position>, bool))
    ensures |r.0| <= fuel
    ensures fuel > 0 ==> |r.0| > 0 && r.0[0] == p
    ensures r.1 <==> |r.0| > 0 && IsEnd(r.0[|r.0| - 1], endA, endB)
    decreases fuel
  {
    if fuel == 0 then ([], false)
    else if IsEnd(p, endA, endB) then ([p], true)
    else if laneOf(p) >= |targets| then ([p], false)
    else
      var rest := Trail(targets, laneOf, targets[laneOf(p)], endA, endB, fuel - 1);
      ([p] + rest.0, rest.1)
  }

  /** Each position after the first is the target recorded for the lane of the
      position before it. */
  predicate FollowsTargets(ps: seq<Position>, targets: seq<Position>, laneOf: Position -> nat)
  {
    forall i :: 0 <= i < |ps| - 1 ==> laneOf(ps[i]) < |targets| && ps[i + 1] == targets[laneOf(ps[i])]
  }

  /** The walk goes from each position to the target recorded for its lane. */
  lemma {:induction false} TrailFollowsTargets(targets: seq<Position>, laneOf: Position -> nat, p: Position,
                                               endA: Position, endB: Position, fuel: nat)
    ensures FollowsTargets(Trail(targets, laneOf, p, endA, endB, fuel).0, targets, laneOf)
    decreases fuel
  {
    if fuel > 0 && !IsEnd(p, endA, endB) && laneOf(p) < |targets| {
      var next := targets[laneOf(p)];
      TrailFollowsTargets(targets, laneOf, next, endA, endB, fuel - 1);
      var ps := Trail(targets, laneOf, p, endA, endB, fuel).0;
      var rest := Trail(targets, laneOf, next, endA, endB, fuel - 1).0;
      assert FollowsTargets(rest, targets, laneOf);
      assert ps == [p] + rest;
      forall i | 0 <= i < |ps| - 1
        ensures laneOf(ps[i]) < |targets| && ps[i + 1] == targets[laneOf(ps[i])]
      {
        if i > 0 {
          assert ps[i] == rest[i - 1] && ps[i + 1] == rest[i];
        } else {
          assert ps[1] == rest[0] == next;
        }
      }
    }
  }

  /** The positions written for the winning entry: unless the entry is itself an
      end position, its position (preceded by a copy at the start offset when
      the offsets differ) and then the walk from its lane's target; otherwise
      the walk from the entry's position. */
  function Walked(win: BufferItem, startOffset: nat, endA: Position, endB: Position,
                  targets: seq<Position>, laneOf: Position -> nat): (seq<Position>, bool)
  {
    var p := win.position;
    if IsEnd(p, endA, endB) then Trail(targets, laneOf, p, endA, endB, LaneCount)
    else
      var head := (if startOffset != p.offset then [p.(offset := startOffset)] else []) + [p];
      if win.laneId >= |targets| then (head, false)
      else
        var t := Trail(targets, laneOf, targets[win.laneId], endA, endB, LaneCount);
        (head + t.0, t.1)
  }

  function Flatten(cs: seq<seq<Position>>): seq<Position>
  {
    if cs == [] then [] else cs[0] + Flatten(cs[1..])
  }

  lemma {:induction false} FlattenAppend(cs: seq<seq<Position>>, c: seq<Position>)
    ensures Flatten(cs + [c]) == Flatten(cs) + c
  {
    if cs != [] {
      assert (cs + [c])[1..] == cs[1..] + [c];
      FlattenAppend(cs[1..], c);
    } else {
      assert Flatten([c]) == c + Flatten([]);
    }
  }

  /** The positions cut into path units: twelve each, the last one holding the
      rest. */
  function Chunks(ps: seq<Position>): (r: seq<seq<Position>>)
    ensures Flatten(r) == ps
    ensures forall i :: 0 <= i < |r| ==> 0 < |r[i]| <= PositionsPerUnit
    ensures forall i :: 0 <= i < |r| - 1 ==> |r[i]| == PositionsPerUnit
    ensures |r| == if ps == [] then 0 else (|ps| - 1) / PositionsPerUnit + 1
    decreases |ps|
  {
    if ps == [] then []
    else if |ps| <= PositionsPerUnit then
      assert Flatten([ps]) == ps + Flatten([]);
      [ps]
    else
      var rest := Chunks(ps[PositionsPerUnit..]);
      assert ([ps[..PositionsPerUnit]] + rest)[1..] == rest;
      assert ps == ps[..PositionsPerUnit] + ps[PositionsPerUnit..];
      [ps[..PositionsPerUnit]] + rest
  }

  /** Full units followed by a last, non-empty one are exactly the cutting of
      their concatenation. */
  lemma {:induction false} ChunksOfFullUnits(cs: seq<seq<Position>>, last: seq<Position>)
    requires forall i :: 0 <= i < |cs| ==> |cs[i]| == PositionsPerUnit
    requires 0 < |last| <= PositionsPerUnit
    ensures Chunks(Flatten(cs) + last) == cs + [last]
  {
    if cs == [] {
      assert Flatten(cs) + last == last;
    } else {
      var tail := Flatten(cs[1..]) + last;
      ChunksOfFullUnits(cs[1..], last);
      assert Flatten(cs) + last == cs[0] + tail;
      ChunksCons(cs[0], tail);
      assert cs + [last] == [cs[0]] + (cs[1..] + [last]);
    }
  }

  /** A full unit in front of a non-empty rest is cut off as the first unit. */
  lemma ChunksCons(x: seq<Position>, tail: seq<Position>)
    requires |x| == PositionsPerUnit && tail != []
    ensures Chunks(x + tail) == [x] + Chunks(tail)
  {
    var ps := x + tail;
    assert ps[..PositionsPerUnit] == x;
    assert ps[PositionsPerUnit..] == tail;
  }

  function Sum(xs: seq<nat>): nat
  {
    if xs == [] then 0 else xs[0] + Sum(xs[1..])
  }

  lemma {:induction false} SumSplit(xs: seq<nat>, i: int)
    requires 0 <= i <= |xs|
    ensures Sum(xs[..i]) + Sum(xs[i..]) == Sum(xs)
    decreases i
  {
    if i > 0 {
      SumSplit(xs[1..], i - 1);
      assert xs[1..][..i - 1] == xs[..i][1..];
      assert xs[1..][i - 1..] == xs[i..];
    } else {
      assert xs[..0] == [];
      assert xs[0..] == xs;
    }
  }

  /** The number of positions in each unit. */
  function Counts(cs: seq<seq<Position>>): (r: seq<nat>)
    ensures |r| == |cs| && forall i :: 0 <= i < |cs| ==> r[i] == |cs[i]|
  {
    seq(|cs|, i requires 0 <= i < |cs| => |cs[i]|)
  }

  lemma {:induction false} CountsSum(cs: seq<seq<Position>>)
    ensures Sum(Counts(cs)) == |Flatten(cs)|
  {
    if cs != [] {
      CountsSum(cs[1..]);
      assert Counts(cs)[1..] == Counts(cs[1..]);
    }
  }

  /** total * part / whole, as the float expression of the source. */
  function Scaled(total: real, part: nat, whole: nat): real
    requires whole > 0
  {
    total * (part as real) / (whole as real)
  }

  /** The lengths the units of a route are given: the first unit the whole
      length, every later unit the whole length scaled by the share of the
      route's positions held by that unit and the units after it. */
  function Lengths(total: real, counts: seq<nat>): (r: seq<real>)
    requires Sum(counts) > 0
    ensures |r| == |counts|
  {
    seq(|counts|, i requires 0 <= i < |counts| =>
      if i == 0 then total else Scaled(total, Sum(counts[i..]), Sum(counts)))
  }

  /** The continuation-length loop: walking the units in order with the running
      count of positions before each, it gives each continuation unit the
      length times the positions not yet passed over the total. */
  method DistributeLengths(total: real, counts: seq<nat>) returns (lengths: seq<real>)
    requires |counts| > 0 && Sum(counts) > 0
    ensures lengths == Lengths(total, counts)
  {
    var n := Sum(counts);
    lengths := [total];
    var passed := counts[0];
    var j := 1;
    SumSplit(counts, 1);
    assert counts[..1] == [counts[0]];
    while j < |counts|
      invariant 1 <= j <= |counts|
      invariant passed == Sum(counts[..j])
      invariant |lengths| == j
      invariant forall i :: 0 <= i < j ==> lengths[i] == Lengths(total, counts)[i]
    {
      SumSplit(counts, j);
      lengths := lengths + [Scaled(total, n - passed, n)];
      assert counts[..j + 1] == counts[..j] + [counts[j]];
      SumAppend(counts[..j], counts[j]);
      passed := passed + counts[j];
      j := j + 1;
    }
  }

  lemma {:induction false} SumAppend(xs: seq<nat>, x: nat)
    ensures Sum(xs + [x]) == Sum(xs) + x
  {
    if xs == [] {
      assert [x][1..] == [];
    } else {
      assert (xs + [x])[1..] == xs[1..] + [x];
      SumAppend(xs[1..], x);
    }
  }

  /** Scaling by a larger share gives a larger length, never above the total. */
  lemma ScaledOrder(total: real, a: nat, b: nat, n: nat)
    requires total > 0.0 && 0 < a < b <= n
    ensures 0.0 < Scaled(total, a, n) < Scaled(total, b, n) <= total
  {
    var x, y, z := a as real, b as real, n as real;
    assert x / z < y / z <= 1.0;
    assert total * x / z == total * (x / z);
    assert total * y / z == total * (y / z);
  }

  /** Suffix sums of positive counts are positive, bounded by the total and
      strictly shrinking. */
  lemma SuffixSums(counts: seq<nat>, i: int)
    requires 0 <= i < |counts| && forall j :: 0 <= j < |counts| ==> counts[j] > 0
    ensures 0 < Sum(counts[i..]) <= Sum(counts)
    ensures Sum(counts[i + 1..]) < Sum(counts[i..])
  {
    SumSplit(counts, i);
    assert counts[i..][0] == counts[i];
    assert counts[i..][1..] == counts[i + 1..];
  }

  /** With a positive total and non-empty units the lengths start at the total
      and strictly decrease while staying positive. */
  lemma LengthsDecrease(total: real, counts: seq<nat>)
    requires Sum(counts) > 0 && total > 0.0
    requires forall i :: 0 <= i < |counts| ==> counts[i] > 0
    ensures |counts| > 0 ==> Lengths(total, counts)[0] == total
    ensures forall i :: 0 <= i < |counts| ==> 0.0 < Lengths(total, counts)[i] <= total
    ensures forall i :: 0 <= i < |counts| - 1 ==> Lengths(total, counts)[i + 1] < Lengths(total, counts)[i]
  {
    var n := Sum(counts);
    var ls := Lengths(total, counts);
    forall i | 0 <= i < |counts| - 1
      ensures ls[i + 1] < ls[i]
    {
      SuffixSums(counts, i);
      SuffixSums(counts, i + 1);
      if i == 0 {
        ScaledOrder(total, Sum(counts[1..]), n, n);
      } else {
        ScaledOrder(total, Sum(counts[i + 1..]), Sum(counts[i..]), n);
      }
    }
    forall i | 0 < i < |counts|
      ensures 0.0 < ls[i] <= total
    {
      SuffixSums(counts, i);
      SuffixSums(counts, i - 1);
      ScaledOrder(total, Sum(counts[i..]), Sum(counts[i - 1..]), n);
    }
  }

  /** A successfully reconstructed route: the units it occupies (the request's
      unit first, then the units allocated for it in order), the positions of
      each unit and each unit's length. */
  datatype RouteRecords = RouteRecords(units: seq<nat>, chunks: seq<seq<Position>>, lengths: seq<real>)

  datatype Outcome = Ready(route: RouteRecords) | Failed

  /** What reconstruction yields for the written positions `ps`: a route when
      the walk reached an end position and the allocator supplies every
      continuation unit, a failure otherwise. `allocs` are the units the
      allocator hands out before it first fails. */
  function RouteFrom(unit: nat, ps: seq<Position>, reached: bool, allocs: seq<nat>, total: real): Outcome
  {
    if reached && ps != [] && (|ps| - 1) / PositionsPerUnit <= |allocs| then
      var cs := Chunks(ps);
      CountsSum(cs);
      Ready(RouteRecords([unit] + allocs[..(|ps| - 1) / PositionsPerUnit], cs, Lengths(total, Counts(cs))))
    else Failed
  }

  function RouteSpec(unit: nat, win: BufferItem, startOffset: nat, endA: Position, endB: Position,
                     targets: seq<Position>, laneOf: Position -> nat, allocs: seq<nat>, total: real): Outcome
  {
    var w := Walked(win, startOffset, endA, endB, targets, laneOf);
    RouteFrom(unit, w.0, w.1, allocs, total)
  }

  /** Reaching an end position after full units and a last partial one gives
      exactly those units. */
  lemma ReadyWhenReached(unit: nat, ps: seq<Position>, allocs: seq<nat>, total: real,
                         chunks: seq<seq<Position>>, cur: seq<Position>)
    requires forall i :: 0 <= i < |chunks| ==> |chunks[i]| == PositionsPerUnit
    requires 0 < |cur| <= PositionsPerUnit && |chunks| <= |allocs|
    requires ps == Flatten(chunks) + cur
    ensures Sum(Counts(chunks + [cur])) > 0
    ensures RouteFrom(unit, ps, true, allocs, total)
      == Ready(RouteRecords([unit] + allocs[..|chunks|], chunks + [cur], Lengths(total, Counts(chunks + [cur]))))
  {
    ChunksOfFullUnits(chunks, cur);
    FlattenLength(chunks);
    assert (|ps| - 1) / PositionsPerUnit == |chunks|;
    CountsSum(chunks + [cur]);
  }

  /** A route longer than the units available fails. */
  lemma FailsWithoutUnits(unit: nat, ps: seq<Position>, allocs: seq<nat>, total: real)
    requires |ps| > PositionsPerUnit * (|allocs| + 1)
    ensures RouteFrom(unit, ps, true, allocs, total) == Failed
  {
  }

  /** A route from RouteSpec ends at an end position, follows the recorded
      targets, fills every unit but the last, and uses one allocated unit per
      unit after the first. */
  lemma RouteShape(unit: nat, win: BufferItem, startOffset: nat, endA: Position, endB: Position,
                   targets: seq<Position>, laneOf: Position -> nat, allocs: seq<nat>, total: real)
    requires RouteSpec(unit, win, startOffset, endA, endB, targets, laneOf, allocs, total).Ready?
    ensures var r := RouteSpec(unit, win, startOffset, endA, endB, targets, laneOf, allocs, total).route;
      var ps := Flatten(r.chunks);
      && |r.units| == |r.chunks| == |r.lengths| > 0
      && r.units[0] == unit && r.units[1..] == allocs[..|r.chunks| - 1]
      && IsEnd(ps[|ps| - 1], endA, endB)
      && (forall i :: 0 <= i < |r.chunks| - 1 ==> |r.chunks[i]| == PositionsPerUnit)
      && (forall i :: 0 <= i < |r.chunks| ==> 0 < |r.chunks[i]| <= PositionsPerUnit)
      && r.lengths[0] == total
      && (IsEnd(win.position, endA, endB) ==> ps[0] == win.position)
      && (!IsEnd(win.position, endA, endB) ==>
            (if startOffset != win.position.offset then ps[1] == win.position && ps[0] == win.position.(offset := startOffset)
             else ps[0] == win.position))
  {
  }

  /** The reconstruction loop: walk the targets writing positions into the
      current unit, switch to a freshly allocated unit after every twelfth
      position that is not the last, and stop at an end position or after
      262144 steps. */
  method BuildRoute(unit: nat, win: BufferItem, startOffset: nat, endA: Position, endB: Position,
                    targets: seq<Position>, laneOf: Position -> nat, allocs: seq<nat>, total: real)
    returns (outcome: Outcome)
    ensures outcome == RouteSpec(unit, win, startOffset, endA, endB, targets, laneOf, allocs, total)
  {
    var cur: seq<Position> := [];
    var position := win.position;
    if !IsEnd(position, endA, endB) {
      if startOffset != position.offset {
        cur := cur + [position.(offset := startOffset)];
      }
      cur := cur + [position];
      if win.laneId >= |targets| {
        return Failed;
      }
      position := targets[win.laneId];
    }
    assert Walked(win, startOffset, endA, endB, targets, laneOf)
        == (cur + Trail(targets, laneOf, position, endA, endB, LaneCount).0,
            Trail(targets, laneOf, position, endA, endB, LaneCount).1) by {
      var t := Trail(targets, laneOf, position, endA, endB, LaneCount);
      if IsEnd(win.position, endA, endB) {
        assert cur == [] && position == win.position;
        assert cur + t.0 == t.0;
      } else {
        assert position == targets[win.laneId];
        assert cur == (if startOffset != win.position.offset then [win.position.(offset := startOffset)] else []) + [win.position];
      }
    }
    outcome := WriteUnits(unit, cur, position, endA, endB, targets, laneOf, allocs, total);
  }

  /** The loop of the reconstruction, from the positions already written to the
      request's unit and the next position to visit. */
  method WriteUnits(unit: nat, head: seq<Position>, start: Position, endA: Position, endB: Position,
                    targets: seq<Position>, laneOf: Position -> nat, allocs: seq<nat>, total: real)
    returns (outcome: Outcome)
    requires |head| < PositionsPerUnit
    ensures var whole := Trail(targets, laneOf, start, endA, endB, LaneCount);
      outcome == RouteFrom(unit, head + whole.0, whole.1, allocs, total)
  {
    ghost var whole := Trail(targets, laneOf, start, endA, endB, LaneCount);
    ghost var w := (head + whole.0, whole.1);
    var cur := head;
    var position := start;
    var chunks: seq<seq<Position>> := [];
    var units: seq<nat> := [unit];
    ghost var written := cur;
    ghost var rest := whole;
    var k := 0;
    while k < LaneCount
      invariant 0 <= k <= LaneCount
      invariant |cur| < PositionsPerUnit
      invariant forall i :: 0 <= i < |chunks| ==> |chunks[i]| == PositionsPerUnit
      invariant |chunks| <= |allocs| && units == [unit] + allocs[..|chunks|]
      invariant written == Flatten(chunks) + cur
      invariant rest == Trail(targets, laneOf, position, endA, endB, LaneCount - k)
      invariant written + rest.0 == w.0 && rest.1 == w.1
    {
      ghost var prev := written;
      cur := cur + [position];
      written := written + [position];
      if IsEnd(position, endA, endB) {
        assert rest == ([position], true);
        ReadyWhenReached(unit, w.0, allocs, total, chunks, cur);
        chunks := chunks + [cur];
        var lengths := DistributeLengths(total, Counts(chunks));
        return Ready(RouteRecords(units, chunks, lengths));
      }
      if laneOf(position) < |targets| {
        TrailStep(targets, laneOf, position, endA, endB, LaneCount - k);
      }
      if |cur| == PositionsPerUnit {
        if |chunks| == |allocs| {
          if w.1 {
            assert |rest.0| >= 2;
            FlattenLength(chunks);
            FailsWithoutUnits(unit, w.0, allocs, total);
          }
          return Failed;
        }
        FlattenAppend(chunks, cur);
        TakeOneMore(unit, allocs, |chunks|);
        units := units + [allocs[|chunks|]];
        chunks := chunks + [cur];
        cur := [];
      }
      if laneOf(position) >= |targets| {
        return Failed;
      }
      ghost var step := rest;
      position := targets[laneOf(position)];
      k := k + 1;
      rest := Trail(targets, laneOf, position, endA, endB, LaneCount - k);
      assert step.0 == [written[|written| - 1]] + rest.0;
      Regroup(prev, written[|written| - 1], rest.0);
    }
    return Failed;
  }

  lemma Regroup(a: seq<Position>, x: Position, r: seq<Position>)
    ensures (a + [x]) + r == a + ([x] + r)
  {
  }

  lemma TakeOneMore(unit: nat, allocs: seq<nat>, n: nat)
    requires n < |allocs|
    ensures [unit] + allocs[..n + 1] == ([unit] + allocs[..n]) + [allocs[n]]
  {
    assert allocs[..n + 1] == allocs[..n] + [allocs[n]];
  }

  /** One step of the walk from a position that is not an end position. */
  lemma TrailStep(targets: seq<Position>, laneOf: Position -> nat, p: Position, endA: Position, endB: Position, fuel: nat)
    requires fuel > 0 && !IsEnd(p, endA, endB) && laneOf(p) < |targets|
    ensures var next := Trail(targets, laneOf, targets[laneOf(p)], endA, endB, fuel - 1);
      Trail(targets, laneOf, p, endA, endB, fuel) == ([p] + next.0, next.1)
  {
  }

  lemma {:induction false} FlattenLength(cs: seq<seq<Position>>)
    requires forall i :: 0 <= i < |cs| ==> |cs[i]| == PositionsPerUnit
    ensures |Flatten(cs)| == PositionsPerUnit * |cs|
  {
    if cs != [] {
      FlattenLength(cs[1..]);
    }
  }

  /** PathUnit.m_length of the request: the walking duration for a mixed
      pedestrian request, the travelled distance otherwise. */
  function RouteLength(laneTypes: set<LaneType>, win: BufferItem): (r: real)
    ensures Pedestrian in laneTypes && laneTypes != {Pedestrian} ==> r == win.duration
    ensures Pedestrian !in laneTypes || laneTypes == {Pedestrian} ==> r == win.methodDistance
  {
    if laneTypes != {Pedestrian} && Pedestrian in laneTypes then win.duration else win.methodDistance
  }

  /** PathUnit.m_speed: distance times 100 over the duration (at least 0.01),
      clamped to [0, 255] and truncated to a byte. */
  function SpeedByte(methodDistance: real, duration: real): (r: int)
    ensures 0 <= r <= 255
    ensures var v := methodDistance * 100.0 / (if duration > 0.01 then duration else 0.01);
      (0.0 <= v <= 255.0 ==> r as real <= v < r as real + 1.0)
      && (v < 0.0 ==> r == 0) && (v > 255.0 ==> r == 255)
  {
    var v := methodDistance * 100.0 / (if duration > 0.01 then duration else 0.01);
    var c := if v < 0.0 then 0.0 else if v > 255.0 then 255.0 else v;
    c.Floor
  }
}
