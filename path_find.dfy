/** The path-finder object: its request queue (a singly linked list threaded
    through the path units' next-unit links) and its search buffers (the bucket
    queue's arrays), with the search entry point that derives the settings,
    seeds the buckets with the end positions, runs the search loop and
    reconstructs the route. */
module PathFind {
  import opened Net
  import opened Wrappers
  import opened LaneRules
  import opened BucketQueue
  import opened Route

  /** Bits of PathUnit.m_pathFindFlags. */
  const FlagCreated: bv8 := 1
  const FlagCalculating: bv8 := 2
  const FlagReady: bv8 := 4
  const FlagFailed: bv8 := 8

  // ---------------------------------------------------------------------
  // The request queue as a list of units
  // ---------------------------------------------------------------------

  /** The pending units `p` form the list from `first` to `last` through the
      next-unit links: distinct, non-zero ids, each linked to the one after it,
      the last linked to 0; an empty list has both ends 0. */
  ghost predicate Linked(next: seq<nat>, p: seq<nat>, first: nat, last: nat)
  {
    && (forall i :: 0 <= i < |p| ==> 0 < p[i] < |next|)
    && (forall i, j :: 0 <= i < j < |p| ==> p[i] != p[j])
    && (p == [] ==> first == 0 && last == 0)
    && (p != [] ==> first == p[0] && last == p[|p| - 1] && next[last] == 0)
    && (forall i :: 0 <= i < |p| - 1 ==> next[p[i]] == p[i + 1])
  }

  /** The units visited by following next-unit links from `u` until 0, at most `n`. */
  function Walk(next: seq<nat>, u: nat, n: nat): seq<nat>
    decreases n
  {
    if n == 0 || u == 0 || u >= |next| then [] else [u] + Walk(next, next[u], n - 1)
  }

  /** Following the links from the head visits exactly the pending units in
      order and then stops at 0. */
  lemma {:induction false} LinkedWalk(next: seq<nat>, p: seq<nat>, first: nat, last: nat, n: nat)
    requires Linked(next, p, first, last) && n > |p|
    ensures Walk(next, first, n) == p
    decreases |p|
  {
    if p != [] {
      var second := if |p| == 1 then 0 else p[1];
      var tailLast := if |p| == 1 then 0 else last;
      assert next[first] == second;
      assert Linked(next, p[1..], second, tailLast) by {
        forall i, j | 0 <= i < j < |p| - 1
          ensures p[1..][i] != p[1..][j]
        {
          assert p[i + 1] != p[j + 1];
        }
      }
      LinkedWalk(next, p[1..], second, tailLast, n - 1);
      assert p == [first] + p[1..];
    }
  }

  /** Appending an unlinked unit at the tail. */
  lemma LinkedAppend(next: seq<nat>, p: seq<nat>, first: nat, last: nat, u: nat)
    requires Linked(next, p, first, last) && 0 < u < |next| && u !in p && next[u] == 0
    ensures p == [] ==> Linked(next, [u], u, u)
    ensures p != [] ==> Linked(next[last := u], p + [u], first, u)
  {
    if p != [] {
      var q := p + [u];
      var next' := next[last := u];
      forall i | 0 <= i < |q| - 1
        ensures next'[q[i]] == q[i + 1]
      {
        if i < |p| - 1 {
          assert p[i] != p[|p| - 1];
        }
      }
    }
  }

  /** Prepending a unit at the head. */
  lemma LinkedPrepend(next: seq<nat>, p: seq<nat>, first: nat, last: nat, u: nat)
    requires Linked(next, p, first, last) && 0 < u < |next| && u !in p
    requires p == [] ==> next[u] == 0
    ensures p == [] ==> Linked(next, [u], u, u)
    ensures p != [] ==> Linked(next[u := first], [u] + p, u, last)
  {
    if p != [] {
      var q := [u] + p;
      var next' := next[u := first];
      forall i, j | 0 <= i < j < |q|
        ensures q[i] != q[j]
      {
        if i > 0 {
          assert q[i] == p[i - 1] && q[j] == p[j - 1];
        } else {
          assert q[j] in p;
        }
      }
      forall i | 0 <= i < |q| - 1
        ensures next'[q[i]] == q[i + 1]
      {
        if i > 0 {
          assert q[i] == p[i - 1] && q[i] in p;
        }
      }
      assert p[|p| - 1] in p;
    }
  }

  /** Removing the head and clearing its link. */
  lemma LinkedPop(next: seq<nat>, p: seq<nat>, first: nat, last: nat)
    requires Linked(next, p, first, last) && p != []
    ensures next[first] == (if |p| == 1 then 0 else p[1])
    ensures Linked(next[first := 0], p[1..], next[first], if |p| == 1 then 0 else last)
  {
    var q := p[1..];
    var next' := next[first := 0];
    if |p| > 1 {
      assert p[0] != p[|p| - 1];
      forall i | 0 <= i < |q| - 1
        ensures next'[q[i]] == q[i + 1]
      {
        assert p[0] != p[i + 1];
      }
      forall i, j | 0 <= i < j < |q|
        ensures q[i] != q[j]
      {
        assert p[i + 1] != p[j + 1];
      }
    }
  }

  /** The queue of path requests waiting for the path-finder thread, and the
      unit being calculated. `next` and `flags` are the next-unit links and
      path-find flags of all path units. */
  class RequestQueue {
    const next: array<nat>
    const flags: array<bv8>
    var queueFirst: nat
    var queueLast: nat
    var calculating: nat
    var queuedPathFindCount: int
    /** The units waiting, in the order they will be calculated. */
    ghost var Pending: seq<nat>

    ghost predicate Valid()
      reads this, next
    {
      && (next as object) != (flags as object)
      && next.Length == flags.Length
      && Linked(next[..], Pending, queueFirst, queueLast)
      && queuedPathFindCount == |Pending|
    }

    constructor(next: array<nat>, flags: array<bv8>)
      requires (next as object) != (flags as object) && next.Length == flags.Length
      ensures Valid() && Pending == [] && calculating == 0
      ensures this.next == next && this.flags == flags
    {
      this.next := next;
      this.flags := flags;
      queueFirst, queueLast, calculating, queuedPathFindCount := 0, 0, 0, 0;
      Pending := [];
    }

    /** CalculatePath: once the path manager has taken a reference on the unit
        (`referenced`), the unit is queued at the head when it skips the queue
        and at the tail otherwise, marked as created, and counted. */
    method CalculatePath(unit: nat, skipQueue: bool, referenced: bool) returns (queued: bool)
      requires Valid() && 0 < unit < next.Length && unit !in Pending
      requires !skipQueue || Pending == [] ==> next[unit] == 0
      modifies this, next, flags
      ensures Valid() && queued == referenced && calculating == old(calculating)
      ensures !referenced ==> Pending == old(Pending) && next[..] == old(next[..]) && flags[..] == old(flags[..])
      ensures referenced ==> Pending == (if skipQueue then [unit] + old(Pending) else old(Pending) + [unit])
      ensures referenced ==> flags[..] == old(flags[..])[unit := old(flags[unit]) | FlagCreated]
      ensures referenced && old(Pending) == [] ==> next[..] == old(next[..])
      ensures referenced && old(Pending) != [] && skipQueue ==> next[..] == old(next[..])[unit := old(queueFirst)]
      ensures referenced && old(Pending) != [] && !skipQueue ==> next[..] == old(next[..])[old(queueLast) := unit]
    {
      if !referenced {
        return false;
      }
      if skipQueue {
        PushFront(unit);
      } else {
        PushBack(unit);
      }
      ghost var linked := next[..];
      flags[unit] := flags[unit] | FlagCreated;
      assert next[..] == linked;
      return true;
    }

    /** The skip-queue branch of CalculatePath: the unit becomes the head. */
    method PushFront(unit: nat)
      requires Valid() && 0 < unit < next.Length && unit !in Pending
      requires Pending == [] ==> next[unit] == 0
      modifies this, next
      ensures Valid()
      ensures Pending == [unit] + old(Pending) && calculating == old(calculating)
      ensures old(Pending) == [] ==> next[..] == old(next[..])
      ensures old(Pending) != [] ==> next[..] == old(next[..])[unit := old(queueFirst)]
    {
      LinkedPrepend(next[..], Pending, queueFirst, queueLast, unit);
      if queueLast == 0 {
        queueLast := unit;
      } else {
        next[unit] := queueFirst;
      }
      queueFirst := unit;
      Pending := [unit] + Pending;
      queuedPathFindCount := queuedPathFindCount + 1;
    }

    /** The ordinary branch of CalculatePath: the unit is linked after the tail. */
    method PushBack(unit: nat)
      requires Valid() && 0 < unit < next.Length && unit !in Pending && next[unit] == 0
      modifies this, next
      ensures Valid()
      ensures Pending == old(Pending) + [unit] && calculating == old(calculating)
      ensures old(Pending) == [] ==> next[..] == old(next[..])
      ensures old(Pending) != [] ==> next[..] == old(next[..])[old(queueLast) := unit]
    {
      LinkedAppend(next[..], Pending, queueFirst, queueLast, unit);
      if queueLast == 0 {
        queueFirst := unit;
      } else {
        next[queueLast] := unit;
      }
      queueLast := unit;
      Pending := Pending + [unit];
      queuedPathFindCount := queuedPathFindCount + 1;
    }

    /** The dequeue of the path-finder thread: with a unit waiting, the head is
        taken as the unit being calculated, unlinked, and moved from created to
        calculating; the count drops, to 0 when the queue empties. An empty
        queue is where the thread waits; nothing changes. */
    method BeginCalculation() returns (started: bool)
      requires Valid()
      modifies this, next, flags
      ensures Valid()
      ensures started == (old(Pending) != [])
      ensures !started ==> Pending == old(Pending) && calculating == old(calculating)
                           && next[..] == old(next[..]) && flags[..] == old(flags[..])
      ensures started ==> calculating == old(Pending)[0] && Pending == old(Pending)[1..]
      ensures started ==> 0 < calculating < flags.Length
      ensures started ==> next[..] == old(next[..])[calculating := 0]
      ensures started ==> flags[..] == old(flags[..])[calculating := (old(flags[..])[calculating] & 0xFE) | FlagCalculating]
    {
      if queueFirst == 0 {
        return false;
      }
      TakeHead();
      flags[calculating] := (flags[calculating] & 0xFE) | FlagCalculating;
      return true;
    }

    /** The queue half of the dequeue: the head becomes the unit being
        calculated and is unlinked. */
    method TakeHead()
      requires Valid() && Pending != []
      modifies this, next
      ensures Valid()
      ensures calculating == old(Pending)[0] && Pending == old(Pending)[1..]
      ensures 0 < calculating < flags.Length
      ensures next[..] == old(next[..])[calculating := 0]
    {
      LinkedPop(next[..], Pending, queueFirst, queueLast);
      calculating := queueFirst;
      queueFirst := next[calculating];
      if queueFirst == 0 {
        queueLast := 0;
        queuedPathFindCount := 0;
      } else {
        queuedPathFindCount := queuedPathFindCount - 1;
      }
      next[calculating] := 0;
      Pending := Pending[1..];
    }

    /** The end of a calculation: the outcome bit (ready, or failed, also when
        the calculation threw) is set, the calculating bit cleared, and no unit
        is being calculated any more. */
    method CompleteCalculation(ready: bool)
      requires Valid() && 0 < calculating < flags.Length
      modifies this, flags
      ensures Valid() && Pending == old(Pending) && calculating == 0
      ensures flags[..] == old(flags[..])[old(calculating) :=
        (old(flags[..])[old(calculating)] | (if ready then FlagReady else FlagFailed)) & 0xFD]
    {
      flags[calculating] := (flags[calculating] | (if ready then FlagReady else FlagFailed)) & 0xFD;
      calculating := 0;
    }
  }

  /** The calculation flags move a unit from created to calculating and then to
      the outcome: calculating clears the created bit, completion clears the
      calculating bit and leaves the outcome's bit set. */
  lemma FlagLifecycle(f: bv8, ready: bool)
    ensures var mid := (f & 0xFE) | FlagCalculating;
      && mid & FlagCreated == 0 && mid & FlagCalculating != 0
      && var done := (mid | (if ready then FlagReady else FlagFailed)) & 0xFD;
         && done & FlagCalculating == 0 && done & FlagCreated == 0
         && (ready ==> done & FlagReady != 0)
         && (!ready ==> done & FlagFailed != 0)
  {
  }

  // ---------------------------------------------------------------------
  // The search
  // ---------------------------------------------------------------------

  /** A popped entry reaches a start position: same segment and lane, and it may
      be left forward at or beyond the start offset, or backward at or before it. */
  predicate MatchesStart(item: BufferItem, start: Position, startOffset: nat)
  {
    && item.position.segment == start.segment
    && item.position.lane == start.lane
    && ((item.direction & Forward != 0 && item.position.offset >= startOffset)
        || (item.direction & Backward != 0 && item.position.offset <= startOffset))
  }

  /** The value of an absent buffer item. */
  const NoItem := BufferItem(Position(0, 0, 0), 0.0, 0.0, 0.0, 0, DirNone, {})

  /** A request's end or start item, built when its position has a segment and
      the position count covers it; the absent item otherwise. End items carry
      a distance of 0.01. */
  function EndpointItem(p: Position, present: bool, isEnd: bool, laneOf: Position -> nat,
                        lanesOf: nat -> seq<LaneInfo>, inverted: nat -> bool): (r: BufferItem)
    ensures r.comparisonValue == 0.0 && r.duration == 0.0
    ensures p.segment != 0 && present ==> r.position == p && r.laneId == laneOf(p)
    ensures !(p.segment != 0 && present) ==> r == NoItem
  {
    if p.segment != 0 && present then
      var (direction, laneType) := GetLaneDirection(p, lanesOf(p.segment), inverted(p.segment));
      BufferItem(p, 0.0, if isEnd then 0.01 else 0.0, 0.0, laneOf(p), direction, laneType)
    else NoItem
  }

  /** The start positions and offsets and the end items of a request. */
  datatype Ends = Ends(startA: Position, offsetA: nat, startB: Position, offsetB: nat,
                       endA: BufferItem, endB: BufferItem)

  /** The low nibble of the position count says how many of the positions 00,
      01, 02 and 03 the request sets; a start is used when it is set and has a
      segment, and so is an end, which is searched from. */
  function RequestEnds(positionCount: bv8, position00: Position, position01: Position,
                       position02: Position, position03: Position, laneOf: Position -> nat,
                       lanesOf: nat -> seq<LaneInfo>, inverted: nat -> bool): (r: Ends)
    ensures var count := positionCount & 0xF;
      && (position00.segment != 0 && count >= 1 ==> r.startA == position00 && r.offsetA == position00.offset)
      && (!(position00.segment != 0 && count >= 1) ==> r.startA == Position(0, 0, 0) && r.offsetA == 0)
      && (position02.segment != 0 && count >= 3 ==> r.startB == position02 && r.offsetB == position02.offset)
      && (!(position02.segment != 0 && count >= 3) ==> r.startB == Position(0, 0, 0) && r.offsetB == 0)
      && r.endA == EndpointItem(position01, count >= 2, true, laneOf, lanesOf, inverted)
      && r.endB == EndpointItem(position03, count >= 4, true, laneOf, lanesOf, inverted)
  {
    var count := positionCount & 0xF;
    var a := EndpointItem(position00, count >= 1, false, laneOf, lanesOf, inverted);
    var b := EndpointItem(position02, count >= 3, false, laneOf, lanesOf, inverted);
    Ends(a.position, if position00.segment != 0 && count >= 1 then position00.offset else 0,
         b.position, if position02.segment != 0 && count >= 3 then position02.offset else 0,
         EndpointItem(position01, count >= 2, true, laneOf, lanesOf, inverted),
         EndpointItem(position03, count >= 4, true, laneOf, lanesOf, inverted))
  }

  /** Where a search ends: the frontier it leaves, the winning entry with its
      start offset when one was found, and the entries it popped, in order. */
  datatype SearchEnd = SearchEnd(frontier: Frontier, winner: Option<BufferItem>, offset: nat, popped: seq<BufferItem>)

  /** The search loop on the frontier value, `n` entries having been expanded
      before: pop; a queue that runs dry ends the search without a winner; an
      exhausted bucket moves on; a popped entry reaching start A (checked
      first) or B wins; any other is expanded and the search goes on. */
  function Run(d: Frontier, startA: Position, offsetA: nat, startB: Position, offsetB: nat,
               settings: SearchSettings, expand: (SearchSettings, nat, BufferItem) -> seq<BufferItem>, n: nat): (r: SearchEnd)
    requires Inv(d)
    requires forall s: SearchSettings, n: nat, it: BufferItem, c :: c in expand(s, n, it) ==> c.laneId < LaneCount
    ensures Inv(r.frontier) && r.frontier.epoch == d.epoch && d.minPos <= r.frontier.minPos
    decreases BucketCount - d.minPos, BucketSize - (if 0 <= d.minPos < BucketCount then d.bufferMin[d.minPos] else 0)
  {
    if d.minPos > d.maxPos then SearchEnd(d, None, 0, [])
    else
      StepKeepsInv(d);
      var (next, taken) := Step(d);
      if taken.None? then Run(next, startA, offsetA, startB, offsetB, settings, expand, n)
      else
        var item := taken.value;
        if MatchesStart(item, startA, offsetA) then SearchEnd(next, Some(item), offsetA, [item])
        else if MatchesStart(item, startB, offsetB) then SearchEnd(next, Some(item), offsetB, [item])
        else
          var rest := Run(AddAll(next, expand(settings, n, item), item.position),
                          startA, offsetA, startB, offsetB, settings, expand, n + 1);
          rest.(popped := [item] + rest.popped)
  }

  /** One step of `Run`, spelled out for the proofs that follow it. */
  lemma RunStep(d: Frontier, startA: Position, offsetA: nat, startB: Position, offsetB: nat,
                settings: SearchSettings, expand: (SearchSettings, nat, BufferItem) -> seq<BufferItem>, n: nat)
    requires Inv(d) && d.minPos <= d.maxPos
    requires forall s: SearchSettings, n: nat, it: BufferItem, c :: c in expand(s, n, it) ==> c.laneId < LaneCount
    ensures Inv(Step(d).0)
    ensures var next := Step(d).0;
            var taken := Step(d).1;
            var r := Run(d, startA, offsetA, startB, offsetB, settings, expand, n);
      && (taken.None? ==> r == Run(next, startA, offsetA, startB, offsetB, settings, expand, n))
      && (taken.Some? && MatchesStart(taken.value, startA, offsetA) ==>
            r == SearchEnd(next, taken, offsetA, [taken.value]))
      && (taken.Some? && !MatchesStart(taken.value, startA, offsetA) && MatchesStart(taken.value, startB, offsetB) ==>
            r == SearchEnd(next, taken, offsetB, [taken.value]))
      && (taken.Some? && !MatchesStart(taken.value, startA, offsetA) && !MatchesStart(taken.value, startB, offsetB) ==>
            var rest := Run(AddAll(next, expand(settings, n, taken.value), taken.value.position),
                            startA, offsetA, startB, offsetB, settings, expand, n + 1);
            r == rest.(popped := [taken.value] + rest.popped))
  {
    StepKeepsInv(d);
  }

  /** Whether a popped entry reaches start A or start B. */
  predicate Reaches(item: BufferItem, startA: Position, offsetA: nat, startB: Position, offsetB: nat)
  {
    MatchesStart(item, startA, offsetA) || MatchesStart(item, startB, offsetB)
  }

  /** Putting an entry that reaches neither start in front of a popped log
      keeps "none reaches" for the whole log and for all but its last entry,
      and keeps the last entry. */
  lemma PoppedCons(x: BufferItem, ps: seq<BufferItem>, startA: Position, offsetA: nat, startB: Position, offsetB: nat)
    requires !Reaches(x, startA, offsetA, startB, offsetB)
    ensures (forall i :: 0 <= i < |ps| - 1 ==> !Reaches(ps[i], startA, offsetA, startB, offsetB)) ==>
            forall i :: 0 <= i < |[x] + ps| - 1 ==> !Reaches(([x] + ps)[i], startA, offsetA, startB, offsetB)
    ensures (forall i :: 0 <= i < |ps| ==> !Reaches(ps[i], startA, offsetA, startB, offsetB)) ==>
            forall i :: 0 <= i < |[x] + ps| ==> !Reaches(([x] + ps)[i], startA, offsetA, startB, offsetB)
    ensures |ps| > 0 ==> ([x] + ps)[|[x] + ps| - 1] == ps[|ps| - 1]
  {
    assert forall i :: 1 <= i < |[x] + ps| ==> ([x] + ps)[i] == ps[i - 1];
  }

  /** The search stops at the first popped entry that reaches a start: every
      entry popped before the last reaches neither. */
  lemma {:induction false} RunStopsAtFirst(d: Frontier, startA: Position, offsetA: nat, startB: Position, offsetB: nat,
                                           settings: SearchSettings, expand: (SearchSettings, nat, BufferItem) -> seq<BufferItem>, n: nat)
    requires Inv(d)
    requires forall s: SearchSettings, n: nat, it: BufferItem, c :: c in expand(s, n, it) ==> c.laneId < LaneCount
    ensures var r := Run(d, startA, offsetA, startB, offsetB, settings, expand, n);
      forall i :: 0 <= i < |r.popped| - 1 ==> !Reaches(r.popped[i], startA, offsetA, startB, offsetB)
    decreases BucketCount - d.minPos, BucketSize - (if 0 <= d.minPos < BucketCount then d.bufferMin[d.minPos] else 0)
  {
    if d.minPos <= d.maxPos {
      RunStep(d, startA, offsetA, startB, offsetB, settings, expand, n);
      var (next, taken) := Step(d);
      if taken.None? {
        RunStopsAtFirst(next, startA, offsetA, startB, offsetB, settings, expand, n);
      } else if !Reaches(taken.value, startA, offsetA, startB, offsetB) {
        var after := AddAll(next, expand(settings, n, taken.value), taken.value.position);
        RunStopsAtFirst(after, startA, offsetA, startB, offsetB, settings, expand, n + 1);
        PoppedCons(taken.value, Run(after, startA, offsetA, startB, offsetB, settings, expand, n + 1).popped,
                   startA, offsetA, startB, offsetB);
      }
    }
  }

  /** A winner is the last popped entry, and it comes with the offset of the
      start it reaches, A before B. */
  ghost predicate WinnerIsLast(r: SearchEnd, startA: Position, offsetA: nat, startB: Position, offsetB: nat)
  {
    r.winner.Some? ==>
      && |r.popped| > 0 && r.winner.value == r.popped[|r.popped| - 1]
      && var w := r.winner.value;
         || (MatchesStart(w, startA, offsetA) && r.offset == offsetA)
         || (!MatchesStart(w, startA, offsetA) && MatchesStart(w, startB, offsetB) && r.offset == offsetB)
  }

  /** An expanded entry put in front of the rest of the search's log keeps
      its winner the last entry. */
  lemma WinnerCons(x: BufferItem, rest: SearchEnd, startA: Position, offsetA: nat, startB: Position, offsetB: nat)
    requires WinnerIsLast(rest, startA, offsetA, startB, offsetB)
    ensures WinnerIsLast(rest.(popped := [x] + rest.popped), startA, offsetA, startB, offsetB)
  {
    if rest.winner.Some? {
      assert ([x] + rest.popped)[|rest.popped|] == rest.popped[|rest.popped| - 1];
    }
  }

  /** Every search's winner is the last entry it popped, with the offset of
      the start it reaches. */
  lemma {:induction false} RunWinnerIsLast(d: Frontier, startA: Position, offsetA: nat, startB: Position, offsetB: nat,
                                           settings: SearchSettings, expand: (SearchSettings, nat, BufferItem) -> seq<BufferItem>, n: nat)
    requires Inv(d)
    requires forall s: SearchSettings, n: nat, it: BufferItem, c :: c in expand(s, n, it) ==> c.laneId < LaneCount
    ensures WinnerIsLast(Run(d, startA, offsetA, startB, offsetB, settings, expand, n), startA, offsetA, startB, offsetB)
    decreases BucketCount - d.minPos, BucketSize - (if 0 <= d.minPos < BucketCount then d.bufferMin[d.minPos] else 0)
  {
    if d.minPos <= d.maxPos {
      RunStep(d, startA, offsetA, startB, offsetB, settings, expand, n);
      var (next, taken) := Step(d);
      if taken.None? {
        RunWinnerIsLast(next, startA, offsetA, startB, offsetB, settings, expand, n);
      } else if !Reaches(taken.value, startA, offsetA, startB, offsetB) {
        var after := AddAll(next, expand(settings, n, taken.value), taken.value.position);
        RunWinnerIsLast(after, startA, offsetA, startB, offsetB, settings, expand, n + 1);
        WinnerCons(taken.value, Run(after, startA, offsetA, startB, offsetB, settings, expand, n + 1),
                   startA, offsetA, startB, offsetB);
      }
    }
  }

  /** The search loop keeps every entry popped from the current bucket within
      that bucket: its pops, and the candidates it adds, keep the property the
      search starts with. */
  lemma {:induction false} RunKeepsPoppedOk(d: Frontier, startA: Position, offsetA: nat, startB: Position, offsetB: nat,
                                            settings: SearchSettings, expand: (SearchSettings, nat, BufferItem) -> seq<BufferItem>, n: nat)
    requires Inv(d) && CurrentPoppedOk(d)
    requires forall s: SearchSettings, n: nat, it: BufferItem, c :: c in expand(s, n, it) ==> c.laneId < LaneCount
    ensures CurrentPoppedOk(Run(d, startA, offsetA, startB, offsetB, settings, expand, n).frontier)
    decreases BucketCount - d.minPos, BucketSize - (if 0 <= d.minPos < BucketCount then d.bufferMin[d.minPos] else 0)
  {
    if d.minPos <= d.maxPos {
      RunStep(d, startA, offsetA, startB, offsetB, settings, expand, n);
      StepKeepsPoppedOk(d);
      var (next, taken) := Step(d);
      if taken.None? {
        RunKeepsPoppedOk(next, startA, offsetA, startB, offsetB, settings, expand, n);
      } else if !Reaches(taken.value, startA, offsetA, startB, offsetB) {
        var after := AddAll(next, expand(settings, n, taken.value), taken.value.position);
        AddAllKeepsPoppedOk(next, expand(settings, n, taken.value), taken.value.position);
        RunKeepsPoppedOk(after, startA, offsetA, startB, offsetB, settings, expand, n + 1);
      }
    }
  }

  /** The search fails only when the queue runs dry: then no popped entry
      reaches either start and nothing is left queued. */
  lemma {:induction false} RunFailsDry(d: Frontier, startA: Position, offsetA: nat, startB: Position, offsetB: nat,
                                       settings: SearchSettings, expand: (SearchSettings, nat, BufferItem) -> seq<BufferItem>, n: nat)
    requires Inv(d)
    requires forall s: SearchSettings, n: nat, it: BufferItem, c :: c in expand(s, n, it) ==> c.laneId < LaneCount
    ensures var r := Run(d, startA, offsetA, startB, offsetB, settings, expand, n);
      r.winner.None? ==>
        && (forall i :: 0 <= i < |r.popped| ==> !Reaches(r.popped[i], startA, offsetA, startB, offsetB))
        && forall s :: 0 <= s < SlotCount ==> !IsLive(r.frontier, s)
    decreases BucketCount - d.minPos, BucketSize - (if 0 <= d.minPos < BucketCount then d.bufferMin[d.minPos] else 0)
  {
    if d.minPos > d.maxPos {
      ExhaustedIsEmpty(d);
    } else {
      RunStep(d, startA, offsetA, startB, offsetB, settings, expand, n);
      var (next, taken) := Step(d);
      if taken.None? {
        RunFailsDry(next, startA, offsetA, startB, offsetB, settings, expand, n);
      } else if !Reaches(taken.value, startA, offsetA, startB, offsetB) {
        var after := AddAll(next, expand(settings, n, taken.value), taken.value.position);
        RunFailsDry(after, startA, offsetA, startB, offsetB, settings, expand, n + 1);
        PoppedCons(taken.value, Run(after, startA, offsetA, startB, offsetB, settings, expand, n + 1).popped,
                   startA, offsetA, startB, offsetB);
      }
    }
  }

  /** Two ends of a search agree on everything but the popped log. */
  ghost predicate SameEnd(r: SearchEnd, q: SearchEnd)
  {
    r.frontier == q.frontier && r.winner == q.winner && r.offset == q.offset
  }

  /** The path-finder's search buffers. */
  class SearchBuffers {
    const buffer: array<BufferItem>
    const bufferMin: array<int>
    const bufferMax: array<int>
    const laneLocation: array<nat>
    const laneTarget: array<Position>
    var bufferMinPos: int
    var bufferMaxPos: int
    var pathFindIndex: nat

    function State(): Frontier
      reads this, buffer, bufferMin, bufferMax, laneLocation, laneTarget
    {
      Frontier(buffer[..], bufferMin[..], bufferMax[..], bufferMinPos, bufferMaxPos,
               laneLocation[..], laneTarget[..], pathFindIndex)
    }

    /** The five arrays are five objects. */
    ghost predicate Distinct()
    {
      && bufferMin != bufferMax
      && (buffer as object) != (bufferMin as object) && (buffer as object) != (bufferMax as object)
      && (buffer as object) != (laneLocation as object) && (buffer as object) != (laneTarget as object)
      && (bufferMin as object) != (laneLocation as object) && (bufferMax as object) != (laneLocation as object)
      && (bufferMin as object) != (laneTarget as object) && (bufferMax as object) != (laneTarget as object)
      && (laneLocation as object) != (laneTarget as object)
    }

    /** Between searches: the arrays have their sizes, every location has a
        sound epoch, and every entry names a lane. */
    ghost predicate Valid()
      reads this, buffer, bufferMin, bufferMax, laneLocation, laneTarget
    {
      && Shaped()
      && EpochsOk(State())
      && LanesOk(State())
    }

    /** Awake: fresh zeroed buffers and epoch 0. */
    constructor()
      ensures Valid() && pathFindIndex == 0
      ensures forall l :: 0 <= l < LaneCount ==> laneLocation[l] == 0
    {
      buffer := new BufferItem[SlotCount](_ => NoItem);
      bufferMin := new int[BucketCount](_ => 0);
      bufferMax := new int[BucketCount](_ => 0);
      laneLocation := new nat[LaneCount](_ => 0);
      laneTarget := new Position[LaneCount](_ => Position(0, 0, 0));
      bufferMinPos, bufferMaxPos, pathFindIndex := 0, 0, 0;
    }

    /** The start of a search: the next epoch (resetting every location on the
        wrap to 0), empty buckets, and the present end items queued in bucket 0. */
    method StartSearch(endA: BufferItem, endB: BufferItem)
      requires Valid()
      requires endA.laneId < LaneCount && endB.laneId < LaneCount
      requires endA.comparisonValue == 0.0 && endB.comparisonValue == 0.0
      modifies this, buffer, bufferMin, bufferMax, laneLocation
      ensures Valid() && Inv(State())
      ensures State() == Begin(old(State()), endA, endB)
    {
      ghost var d := State();
      NextSearchIndex();
      ClearBuckets();
      SeedBucket(endA);
      SeedBucket(endB);
      BeginKeepsInv(d, endA, endB);
    }

    /** The array layout every step of a search keeps. */
    ghost predicate Shaped()
      reads this, buffer, bufferMin, bufferMax, laneLocation, laneTarget
    {
      Distinct() && WellFormed(State())
    }

    /** The next epoch; on the wrap to 0 every lane location is reset. */
    method NextSearchIndex()
      requires Shaped()
      modifies this, laneLocation
      ensures Shaped() && State() == Renew(old(State()))
    {
      pathFindIndex := (pathFindIndex + 1) % EpochLimit;
      if pathFindIndex == 0 {
        var i := 0;
        while i < LaneCount
          invariant 0 <= i <= LaneCount
          invariant forall j :: 0 <= j < i ==> laneLocation[j] == ResetLocation
          modifies laneLocation
        {
          laneLocation[i] := ResetLocation;
          i := i + 1;
        }
        assert laneLocation[..] == seq(LaneCount, _ => ResetLocation);
      }
    }

    /** Every bucket emptied. */
    method ClearBuckets()
      requires Shaped()
      modifies this, bufferMin, bufferMax
      ensures Shaped() && State() == Cleared(old(State()))
    {
      bufferMinPos := 0;
      bufferMaxPos := -1;
      var j := 0;
      while j < BucketCount
        invariant 0 <= j <= BucketCount
        invariant forall k :: 0 <= k < j ==> bufferMin[k] == 0 && bufferMax[k] == -1
        modifies bufferMin, bufferMax
      {
        bufferMin[j] := 0;
        bufferMax[j] := -1;
        j := j + 1;
      }
      assert bufferMin[..] == seq(BucketCount, _ => 0);
      assert bufferMax[..] == seq(BucketCount, _ => -1);
    }

    /** An end item with a segment is written to the next slot of bucket 0. */
    method SeedBucket(item: BufferItem)
      requires Shaped() && -1 <= bufferMaxPos < SlotCount - 1
      modifies this, buffer, bufferMax
      ensures Shaped() && State() == Seed(old(State()), item)
    {
      if item.position.segment != 0 {
        bufferMax[0] := bufferMax[0] + 1;
        bufferMaxPos := bufferMaxPos + 1;
        buffer[bufferMaxPos] := item;
      }
    }

    /** AddBufferItem over the arrays, with the staleness test on the slot's
        index in its bucket. */
    method AddBufferItem(item: BufferItem, target: Position)
      requires Valid() && Inv(State()) && item.laneId < LaneCount
      modifies this, buffer, bufferMax, laneLocation, laneTarget
      ensures Valid() && Inv(State())
      ensures State() == Add(old(State()), item, target)
    {
      ghost var d := State();
      AddKeepsBest(d, item, target);
      var location := laneLocation[item.laneId];
      var slot := location % 0x10000;
      var bucket := Max(BucketIndex(item.comparisonValue), bufferMinPos);
      if location / 0x10000 != pathFindIndex {
        PlaceItem(item, target, bucket);
        return;
      }
      if item.comparisonValue >= buffer[slot].comparisonValue {
        return;
      }
      var b := slot / BucketSize;
      var index := slot % BucketSize;
      if b < bufferMinPos || (b == bufferMinPos && index < bufferMin[b]) {
        return;
      }
      if bucket == b {
        buffer[slot] := item;
        laneTarget[item.laneId] := target;
        return;
      }
      assert PointsHome(d, item.laneId);
      VacateSlot(location);
      PlaceItem(item, target, bucket);
    }

    /** AddBufferItem over the arrays exactly as written: the staleness test
        compares the slot's bucket base (`slot & -64`) with the read cursor. */
    method AddBufferItemAsWritten(item: BufferItem, target: Position)
      requires Valid() && Inv(State()) && item.laneId < LaneCount
      modifies this, buffer, bufferMax, laneLocation, laneTarget
      ensures Shaped() && State() == AddAsWritten(old(State()), item, target)
    {
      ghost var d := State();
      var location := laneLocation[item.laneId];
      var slot := location % 0x10000;
      var bucket := Max(BucketIndex(item.comparisonValue), bufferMinPos);
      if location / 0x10000 != pathFindIndex {
        PlaceItem(item, target, bucket);
        return;
      }
      if item.comparisonValue >= buffer[slot].comparisonValue {
        return;
      }
      var b := slot / BucketSize;
      var base := slot - slot % BucketSize;
      if b < bufferMinPos || (b == bufferMinPos && base < bufferMin[b]) {
        return;
      }
      if bucket == b {
        buffer[slot] := item;
        laneTarget[item.laneId] := target;
        return;
      }
      assert PointsHome(d, item.laneId);
      VacateSlot(location);
      PlaceItem(item, target, bucket);
    }

    /** The entry at the location's slot is replaced by the last entry of its
        bucket, which is repointed, and the bucket's write cursor drops. */
    method VacateSlot(location: nat)
      requires Shaped() && BucketsOk(State()) && LanesOk(State())
      requires 0 <= bufferMax[BucketOf(SlotOf(location))]
      modifies buffer, bufferMax, laneLocation
      ensures Shaped() && State() == Vacate(old(State()), location)
    {
      var slot := location % 0x10000;
      var b := slot / BucketSize;
      var last := Slot(b, bufferMax[b]);
      bufferMax[b] := bufferMax[b] - 1;
      var moved := buffer[last];
      laneLocation[moved.laneId] := location;
      buffer[slot] := moved;
    }

    /** The item is appended to the first bucket from `bucket` on that is not
        full, and its lane recorded there; it is dropped when there is none. */
    method PlaceItem(item: BufferItem, target: Position, bucket: int)
      requires Shaped() && item.laneId < LaneCount
      requires forall b :: 0 <= b < BucketCount ==> -1 <= bufferMax[b] < BucketSize
      modifies this, buffer, bufferMax, laneLocation, laneTarget
      ensures Shaped() && State() == Place(old(State()), item, target, bucket)
    {
      if bucket < 0 || bucket >= BucketCount {
        return;
      }
      var b := bucket;
      while bufferMax[b] == BucketSize - 1
        invariant bucket <= b < BucketCount
        invariant FirstNonFull(bufferMax[..], b) == FirstNonFull(bufferMax[..], bucket)
        modifies {}
        decreases BucketCount - b
      {
        b := b + 1;
        if b == BucketCount {
          return;
        }
      }
      if b > bufferMaxPos {
        bufferMaxPos := b;
      }
      bufferMax[b] := bufferMax[b] + 1;
      var slot := Slot(b, bufferMax[b]);
      buffer[slot] := item;
      laneLocation[item.laneId] := Pack(pathFindIndex, slot);
      laneTarget[item.laneId] := target;
    }

    /** The search loop: pop entries in bucket order until one reaches start
        position A (checked first) or B, expanding every other popped entry into
        the candidates `expand` yields for it (with the request's settings and
        the number of entries expanded before it), each added with the popped position as its
        target. Without a match the loop ends when no entry is queued. */
    method Search(startA: Position, startOffsetA: nat, startB: Position, startOffsetB: nat,
                  settings: SearchSettings, expand: (SearchSettings, nat, BufferItem) -> seq<BufferItem>)
      returns (found: bool, winner: BufferItem, offset: nat)
      requires Valid() && Inv(State())
      requires forall s: SearchSettings, n: nat, it: BufferItem, c :: c in expand(s, n, it) ==> c.laneId < LaneCount
      modifies this, buffer, bufferMin, bufferMax, laneLocation, laneTarget
      ensures Valid() && Inv(State())
      ensures pathFindIndex == old(pathFindIndex) && old(bufferMinPos) <= bufferMinPos
      ensures var r := Run(old(State()), startA, startOffsetA, startB, startOffsetB, settings, expand, 0);
        && State() == r.frontier
        && found == r.winner.Some?
        && (found ==> winner == r.winner.value && offset == r.offset)
      ensures found ==>
        || (MatchesStart(winner, startA, startOffsetA) && offset == startOffsetA)
        || (!MatchesStart(winner, startA, startOffsetA) && MatchesStart(winner, startB, startOffsetB) && offset == startOffsetB)
      ensures found ==> exists s :: 0 <= s < SlotCount && IsPopped(State(), s) && buffer[s] == winner
      ensures !found ==> forall s :: 0 <= s < SlotCount ==> !IsLive(State(), s)
    {
      ghost var d := State();
      RunWinnerIsLast(d, startA, startOffsetA, startB, startOffsetB, settings, expand, 0);
      RunFailsDry(d, startA, startOffsetA, startB, startOffsetB, settings, expand, 0);
      var n := 0;
      while bufferMinPos <= bufferMaxPos
        invariant Valid() && Inv(State())
        invariant pathFindIndex == old(pathFindIndex) && old(bufferMinPos) <= bufferMinPos
        invariant SameEnd(Run(d, startA, startOffsetA, startB, startOffsetB, settings, expand, 0),
                          Run(State(), startA, startOffsetA, startB, startOffsetB, settings, expand, n))
        decreases BucketCount - bufferMinPos,
                  BucketSize - (if 0 <= bufferMinPos < BucketCount then bufferMin[bufferMinPos] else 0)
      {
        ghost var before := State();
        RunStep(before, startA, startOffsetA, startB, startOffsetB, settings, expand, n);
        var taken, slot := PopNext();
        if taken.Some? {
          var item := taken.value;
          if MatchesStart(item, startA, startOffsetA) {
            return true, item, startOffsetA;
          }
          if MatchesStart(item, startB, startOffsetB) {
            return true, item, startOffsetB;
          }
          assert forall c :: c in expand(settings, n, item) ==> c.laneId < LaneCount;
          ExpandInto(expand(settings, n, item), item.position);
          n := n + 1;
        }
      }
      return false, NoItem, 0;
    }

    /** One turn of the pop loop: the entry at the read cursor of the current
        bucket is taken and the cursor advanced, or an exhausted bucket is
        left for the next one. */
    method PopNext() returns (taken: Option<BufferItem>, slot: int)
      requires Valid() && Inv(State()) && bufferMinPos <= bufferMaxPos
      modifies this, bufferMin
      ensures Valid() && Inv(State())
      ensures (State(), taken) == Step(old(State()))
      ensures pathFindIndex == old(pathFindIndex)
      ensures taken.None? ==> bufferMinPos == old(bufferMinPos) + 1
      ensures taken.Some? ==> bufferMinPos == old(bufferMinPos) && 0 <= bufferMinPos < BucketCount
                              && bufferMin[bufferMinPos] == old(bufferMin[bufferMinPos]) + 1 <= BucketSize
      ensures taken.Some? ==> 0 <= slot < SlotCount && IsPopped(State(), slot) && buffer[slot] == taken.value
    {
      ghost var before := State();
      StepKeepsInv(before);
      StepTakesFirst(before);
      var lo := bufferMin[bufferMinPos];
      if lo > bufferMax[bufferMinPos] {
        bufferMinPos := bufferMinPos + 1;
        assert State() == Step(before).0;
        return None, 0;
      }
      bufferMin[bufferMinPos] := lo + 1;
      slot := Slot(bufferMinPos, lo);
      taken := Some(buffer[slot]);
      assert State() == Step(before).0;
    }

    /** The candidates of one popped entry, added in order with its position as
        their target. */
    method ExpandInto(candidates: seq<BufferItem>, target: Position)
      requires Valid() && Inv(State())
      requires forall c :: c in candidates ==> c.laneId < LaneCount
      modifies this, buffer, bufferMax, laneLocation, laneTarget
      ensures Valid() && Inv(State())
      ensures State() == AddAll(old(State()), candidates, target)
    {
      ghost var d := State();
      var i := 0;
      while i < |candidates|
        invariant 0 <= i <= |candidates|
        invariant Valid() && Inv(State())
        invariant forall c :: c in candidates[i..] ==> c.laneId < LaneCount
        invariant AddAll(State(), candidates[i..], target) == AddAll(d, candidates, target)
      {
        assert candidates[i..][1..] == candidates[i + 1..];
        AddBufferItem(candidates[i], target);
        i := i + 1;
      }
    }

    /** PathFindImplementation: the settings from the request's flags, the start
        and end items from its positions and position count, the search, and on
        success the route reconstruction with the route length and speed of the
        winning entry. `laneOf` is the game's lane id of a position, `lanesOf`
        and `inverted` describe a segment's lanes and orientation, `expand` is
        the cost model, and `allocs` are the units the path-unit allocator
        hands out before it fails. */
    method PathFindImplementation(
      unit: nat, simulationFlags: bv8, requestLaneTypes: set<LaneType>, positionCount: bv8,
      position00: Position, position01: Position, position02: Position, position03: Position,
      laneOf: Position -> nat, lanesOf: nat -> seq<LaneInfo>, inverted: nat -> bool,
      expand: (SearchSettings, nat, BufferItem) -> seq<BufferItem>, allocs: seq<nat>)
      returns (winner: Option<BufferItem>, outcome: Outcome, speed: Option<int>)
      requires Valid()
      requires forall p :: laneOf(p) < LaneCount
      requires forall s: SearchSettings, n: nat, it: BufferItem, c :: c in expand(s, n, it) ==> c.laneId < LaneCount
      modifies this, buffer, bufferMin, bufferMax, laneLocation, laneTarget
      ensures Valid() && Inv(State())
      ensures pathFindIndex == NextEpoch(old(pathFindIndex))
      ensures winner.None? ==> outcome == Failed && speed.None?
      ensures winner.None? ==> forall s :: 0 <= s < SlotCount ==> !IsLive(State(), s)
      ensures winner.Some? ==> exists s :: 0 <= s < SlotCount && IsPopped(State(), s) && buffer[s] == winner.value
      ensures winner.Some? ==>
        var e := RequestEnds(positionCount, position00, position01, position02, position03, laneOf, lanesOf, inverted);
        var w := winner.value;
        && (MatchesStart(w, e.startA, e.offsetA) || MatchesStart(w, e.startB, e.offsetB))
        && outcome == RouteSpec(unit, w, if MatchesStart(w, e.startA, e.offsetA) then e.offsetA else e.offsetB,
                                e.endA.position, e.endB.position, laneTarget[..], laneOf, allocs,
                                RouteLength(DeriveSettings(simulationFlags, requestLaneTypes).laneTypes, w))
        && speed == Some(SpeedByte(w.methodDistance, w.duration))
      ensures
        var e := RequestEnds(positionCount, position00, position01, position02, position03, laneOf, lanesOf, inverted);
        var d := Begin(old(State()), e.endA, e.endB);
        Inv(d) &&
        var r := Run(d, e.startA, e.offsetA, e.startB, e.offsetB, DeriveSettings(simulationFlags, requestLaneTypes), expand, 0);
        && State() == r.frontier && winner == r.winner
        && (forall i :: 0 <= i < |r.popped| - 1 ==> !Reaches(r.popped[i], e.startA, e.offsetA, e.startB, e.offsetB))
        && WinnerIsLast(r, e.startA, e.offsetA, e.startB, e.offsetB)
        && (winner.None? ==> forall i :: 0 <= i < |r.popped| ==> !Reaches(r.popped[i], e.startA, e.offsetA, e.startB, e.offsetB))
    {
      var settings := DeriveSettings(simulationFlags, requestLaneTypes);
      var e := RequestEnds(positionCount, position00, position01, position02, position03, laneOf, lanesOf, inverted);
      StartSearch(e.endA, e.endB);
      ghost var d := State();
      RunStopsAtFirst(d, e.startA, e.offsetA, e.startB, e.offsetB, settings, expand, 0);
      RunWinnerIsLast(d, e.startA, e.offsetA, e.startB, e.offsetB, settings, expand, 0);
      RunFailsDry(d, e.startA, e.offsetA, e.startB, e.offsetB, settings, expand, 0);
      var found, w, b := Search(e.startA, e.offsetA, e.startB, e.offsetB, settings, expand);
      if !found {
        return None, Failed, None;
      }
      var total := RouteLength(settings.laneTypes, w);
      speed := Some(SpeedByte(w.methodDistance, w.duration));
      outcome := BuildRoute(unit, w, b, e.endA.position, e.endB.position, laneTarget[..], laneOf, allocs, total);
      winner := Some(w);
    }
  }
}
