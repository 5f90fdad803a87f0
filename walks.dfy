/**
 * Walks on a board and the states of the two breadth-first searches of game/pathfinding.py.
 *
 * A walk is a non-empty sequence of cells in which every two consecutive cells are joined by an
 * edge that Board.is_blocked reports open. Both searches are specified against walks; the
 * predicates and lemmas here carry the invariants that the search loops keep.
 */
module Walks {
  import opened Wrappers
  import opened Boards

  function Last<T>(p: seq<T>): T
    requires |p| > 0
  {
    p[|p| - 1]
  }

  /** a and b are joined by an open edge of a well-formed board. */
  ghost predicate Step(l: Layout, a: Cell, b: Cell) {
    l.WellFormed() && !l.IsBlocked(a.0, a.1, b.0, b.1)
  }

  ghost predicate IsWalk(l: Layout, p: seq<Cell>)
  {
    |p| >= 1 && forall i :: 0 <= i < |p| - 1 ==> Step(l, p[i], p[i + 1])
  }

  ghost predicate WalkFrom(l: Layout, start: Cell, p: seq<Cell>)
  {
    IsWalk(l, p) && p[0] == start
  }

  /** p starts at start and ends on a goal row; it takes |p| - 1 steps. */
  ghost predicate ReachesGoal(l: Layout, start: Cell, goals: seq<int>, p: seq<Cell>)
  {
    WalkFrom(l, start, p) && Last(p).0 in goals
  }

  ghost predicate Reachable(l: Layout, start: Cell, goals: seq<int>)
  {
    exists p :: ReachesGoal(l, start, goals, p)
  }

  /** d steps suffice to reach a goal row, and no walk with fewer steps does. */
  ghost predicate IsDistance(l: Layout, start: Cell, goals: seq<int>, d: nat)
  {
    (exists p :: ReachesGoal(l, start, goals, p) && |p| == d + 1) &&
    (forall p :: ReachesGoal(l, start, goals, p) ==> |p| >= d + 1)
  }

  /** The cells of the board, plus start, which the search may also visit. */
  ghost function Universe(l: Layout, start: Cell): set<Cell> {
    (set r, c | 0 <= r < l.size && 0 <= c < l.size :: (r, c)) + {start}
  }

  lemma {:induction false} ShortestExists(l: Layout, start: Cell, goals: seq<int>, p: seq<Cell>)
    requires l.WellFormed() && ReachesGoal(l, start, goals, p)
    ensures exists d: nat :: IsDistance(l, start, goals, d)
    decreases |p|
  {
    if forall p' :: ReachesGoal(l, start, goals, p') ==> |p'| >= |p| {
      assert IsDistance(l, start, goals, |p| - 1);
    } else {
      var p' :| ReachesGoal(l, start, goals, p') && |p'| < |p|;
      ShortestExists(l, start, goals, p');
    }
  }

  lemma DistanceUnique(l: Layout, start: Cell, goals: seq<int>, d1: nat, d2: nat)
    requires l.WellFormed() && IsDistance(l, start, goals, d1) && IsDistance(l, start, goals, d2)
    ensures d1 == d2
  {
    var p1 :| ReachesGoal(l, start, goals, p1) && |p1| == d1 + 1;
    var p2 :| ReachesGoal(l, start, goals, p2) && |p2| == d2 + 1;
  }

  /** The number of steps of a shortest walk to a goal row, or None when there is no such walk. */
  ghost function Dist(l: Layout, start: Cell, goals: seq<int>): (r: Option<nat>)
    requires l.WellFormed()
    ensures r.None? <==> !Reachable(l, start, goals)
    ensures r.Some? ==> IsDistance(l, start, goals, r.value)
  {
    if Reachable(l, start, goals) then
      var p :| ReachesGoal(l, start, goals, p);
      ShortestExists(l, start, goals, p);
      var d: nat :| IsDistance(l, start, goals, d);
      Some(d)
    else
      None
  }

  /** A search that starts on a goal row stops at once: zero steps. */
  lemma StartOnGoalRow(l: Layout, start: Cell, goals: seq<int>)
    requires l.WellFormed() && start.0 in goals
    ensures Reachable(l, start, goals)
    ensures Dist(l, start, goals) == Some(0)
  {
    assert ReachesGoal(l, start, goals, [start]);
    assert IsDistance(l, start, goals, 0);
    DistanceUnique(l, start, goals, 0, Dist(l, start, goals).value);
  }

  lemma ExtendWalk(l: Layout, start: Cell, p: seq<Cell>, n: Cell)
    requires l.WellFormed() && WalkFrom(l, start, p) && Step(l, Last(p), n)
    ensures WalkFrom(l, start, p + [n]) && Last(p + [n]) == n
  {
    var p' := p + [n];
    forall i | 0 <= i < |p'| - 1
      ensures Step(l, p'[i], p'[i + 1])
    {
      if i < |p| - 1 {
        assert p'[i] == p[i] && p'[i + 1] == p[i + 1];
      }
    }
  }

  /** A walk from inside a set that no open edge leaves never leaves the set. */
  lemma {:induction false} WalkStaysIn(l: Layout, s: set<Cell>, p: seq<Cell>, k: nat)
    requires l.WellFormed() && IsWalk(l, p) && p[0] in s && k < |p|
    requires forall x, y :: x in s && Step(l, x, y) ==> y in s
    ensures p[k] in s
  {
    if k > 0 {
      WalkStaysIn(l, s, p, k - 1);
      assert Step(l, p[k - 1], p[k]);
    }
  }

  /** When the explored set is closed, holds start and no goal-row cell, no goal row is reachable. */
  lemma ClosedSetUnreachable(l: Layout, start: Cell, goals: seq<int>, s: set<Cell>)
    requires l.WellFormed() && start in s
    requires forall x, y :: x in s && Step(l, x, y) ==> y in s
    requires forall x :: x in s ==> x.0 !in goals
    ensures !Reachable(l, start, goals)
  {
    if p :| ReachesGoal(l, start, goals, p) {
      WalkStaysIn(l, s, p, |p| - 1);
    }
  }

  /** Every open neighbour of every cell is among the four direction successors of that cell. */
  lemma StepIsDirection(l: Layout, x: Cell, y: Cell)
    requires l.WellFormed() && Step(l, x, y)
    ensures exists i :: 0 <= i < |Directions| && y == Next(x, Directions[i])
  {
    OpenEdgeIsStep(l, x, y);
  }

  /** Every cell of the board belongs to universe. */
  ghost predicate Covers(l: Layout, universe: set<Cell>) {
    forall x: Cell :: l.Inside(x.0, x.1) ==> x in universe
  }

  lemma UniverseCovers(l: Layout, start: Cell)
    ensures Covers(l, Universe(l, start)) && start in Universe(l, start)
  {
    forall x: Cell | l.Inside(x.0, x.1)
      ensures x in Universe(l, start)
    {
      assert x == (x.0, x.1);
    }
  }

  /** Some walk leads from start to x. */
  ghost predicate Connected(l: Layout, start: Cell, x: Cell)
  {
    exists p :: WalkFrom(l, start, p) && Last(p) == x
  }

  lemma ConnectedStep(l: Layout, start: Cell, x: Cell, y: Cell)
    requires l.WellFormed() && Connected(l, start, x) && Step(l, x, y)
    ensures Connected(l, start, y)
  {
    var p :| WalkFrom(l, start, p) && Last(p) == x;
    ExtendWalk(l, start, p, y);
  }

  lemma ConnectedGoal(l: Layout, start: Cell, goals: seq<int>, x: Cell)
    requires l.WellFormed() && Connected(l, start, x) && x.0 in goals
    ensures Reachable(l, start, goals)
  {
    var p :| WalkFrom(l, start, p) && Last(p) == x;
    assert ReachesGoal(l, start, goals, p);
  }

  /** The neighbour of x in direction k is inside the board, across an open edge and not yet visited. */
  ghost predicate Fresh(l: Layout, x: Cell, visited: set<Cell>, k: nat)
    requires k < |Directions|
  {
    var n := Next(x, Directions[k]);
    l.Inside(n.0, n.1) && Step(l, x, n) && n !in visited
  }

  /** The queue q after expanding x in the first k directions: each fresh neighbour is appended. */
  ghost function Enqueue(l: Layout, x: Cell, visited: set<Cell>, q: seq<Cell>, k: nat): seq<Cell>
    requires k <= |Directions|
  {
    if k == 0 then q
    else if Fresh(l, x, visited, k - 1) then Enqueue(l, x, visited, q, k - 1) + [Next(x, Directions[k - 1])]
    else Enqueue(l, x, visited, q, k - 1)
  }

  /** Expanding keeps the old queue and adds exactly the fresh neighbours. */
  lemma {:induction false} EnqueueContents(l: Layout, x: Cell, visited: set<Cell>, q: seq<Cell>, k: nat)
    requires k <= |Directions|
    ensures forall y :: y in q ==> y in Enqueue(l, x, visited, q, k)
    ensures forall y :: y in Enqueue(l, x, visited, q, k) ==> y in q || (Step(l, x, y) && y !in visited)
    ensures forall j :: 0 <= j < k && Fresh(l, x, visited, j) ==> Next(x, Directions[j]) in Enqueue(l, x, visited, q, k)
  {
    if k > 0 {
      EnqueueContents(l, x, visited, q, k - 1);
    }
  }

  /** After a full expansion of x, every open neighbour of x is visited or queued. */
  lemma ExpansionCovers(l: Layout, x: Cell, visited: set<Cell>, q: seq<Cell>, y: Cell)
    requires l.WellFormed() && Step(l, x, y)
    ensures y in visited || y in Enqueue(l, x, visited, q, |Directions|)
  {
    StepIsDirection(l, x, y);
    OpenEdgeIsStep(l, x, y);
    EnqueueContents(l, x, visited, q, |Directions|);
  }

  /**
   * The state of the existence search: every queued cell lies in the universe and is connected
   * to start, no visited cell is on a goal row, start has been seen, and every open neighbour of
   * a visited cell has been seen.
   */
  ghost predicate Searching(l: Layout, start: Cell, goals: seq<int>, universe: set<Cell>,
                            visited: set<Cell>, q: seq<Cell>)
  {
    && (forall x :: x in q ==> x in universe && Connected(l, start, x))
    && visited <= universe
    && (forall x :: x in visited ==> x.0 !in goals)
    && (start in visited || start in q)
    && (forall x, y :: x in visited && Step(l, x, y) ==> y in visited || y in q)
  }

  /** Popping a cell that was visited before keeps the search state. */
  lemma SearchSkip(l: Layout, start: Cell, goals: seq<int>, universe: set<Cell>, visited: set<Cell>, q: seq<Cell>)
    requires l.WellFormed() && Searching(l, start, goals, universe, visited, q)
    requires q != [] && q[0] in visited
    ensures Searching(l, start, goals, universe, visited, q[1..])
  {
    assert forall x :: x in q ==> x == q[0] || x in q[1..];
  }

  /** Visiting a new cell off the goal rows and queueing its expansion keeps the search state. */
  lemma SearchVisit(l: Layout, start: Cell, goals: seq<int>, universe: set<Cell>, visited: set<Cell>, q: seq<Cell>)
    requires l.WellFormed() && Searching(l, start, goals, universe, visited, q)
    requires Covers(l, universe)
    requires q != [] && q[0] !in visited && q[0].0 !in goals
    ensures var cur := q[0];
      Searching(l, start, goals, universe, visited + {cur}, Enqueue(l, cur, visited + {cur}, q[1..], |Directions|))
    ensures q[0] in universe
  {
    var cur := q[0];
    var v' := visited + {cur};
    var q' := Enqueue(l, cur, v', q[1..], |Directions|);
    EnqueueContents(l, cur, v', q[1..], |Directions|);
    assert forall x :: x in q ==> x == cur || x in q[1..];
    forall y | y in q' && y !in q[1..]
      ensures y in universe && Connected(l, start, y)
    {
      OpenEdgeIsStep(l, cur, y);
      ConnectedStep(l, start, cur, y);
    }
    forall x, y | x in v' && Step(l, x, y)
      ensures y in v' || y in q'
    {
      if x == cur {
        ExpansionCovers(l, cur, v', q[1..], y);
      }
    }
  }


  /** Some walk of exactly k steps leads from start to x. */
  ghost predicate ConnectedIn(l: Layout, start: Cell, x: Cell, k: int)
  {
    exists p :: WalkFrom(l, start, p) && Last(p) == x && |p| == k + 1
  }

  lemma ConnectedInStep(l: Layout, start: Cell, x: Cell, k: int, y: Cell)
    requires l.WellFormed() && ConnectedIn(l, start, x, k) && Step(l, x, y)
    ensures ConnectedIn(l, start, y, k + 1)
  {
    var p :| WalkFrom(l, start, p) && Last(p) == x && |p| == k + 1;
    ExtendWalk(l, start, p, y);
  }

  /** The distance queue q after expanding x in the first k directions: each fresh neighbour is appended with distance d. */
  ghost function DistEnqueue(l: Layout, x: Cell, visited: set<Cell>, q: seq<(Cell, int)>, k: nat, d: int): seq<(Cell, int)>
    requires k <= |Directions|
  {
    if k == 0 then q
    else if Fresh(l, x, visited, k - 1) then DistEnqueue(l, x, visited, q, k - 1, d) + [(Next(x, Directions[k - 1]), d)]
    else DistEnqueue(l, x, visited, q, k - 1, d)
  }

  /** Expanding keeps the old queue as a prefix and appends exactly the fresh neighbours, each with distance d. */
  lemma {:induction false} DistEnqueueContents(l: Layout, x: Cell, visited: set<Cell>, q: seq<(Cell, int)>, k: nat, d: int)
    requires k <= |Directions|
    ensures var r := DistEnqueue(l, x, visited, q, k, d);
      && |q| <= |r| && r[..|q|] == q
      && (forall i :: |q| <= i < |r| ==> r[i].1 == d && Step(l, x, r[i].0) && r[i].0 !in visited)
      && (forall j :: 0 <= j < k && Fresh(l, x, visited, j) ==> (Next(x, Directions[j]), d) in r)
  {
    if k > 0 {
      DistEnqueueContents(l, x, visited, q, k - 1, d);
      var r0 := DistEnqueue(l, x, visited, q, k - 1, d);
      if Fresh(l, x, visited, k - 1) {
        var n := Next(x, Directions[k - 1]);
        assert (r0 + [(n, d)])[..|q|] == r0[..|q|];
      }
    }
  }

  /**
   * The state of the distance search: the queue holds (cell, distance) entries in non-decreasing
   * order of distance, all within [level, level + 1], each reachable in exactly that many steps;
   * each visited cell x has a recorded distance of at most level, and each open neighbour y of x
   * is visited with at most one step more or is queued with one step more.
   */
  ghost predicate Frontier(l: Layout, start: Cell, goals: seq<int>, universe: set<Cell>,
                           q: seq<(Cell, int)>, dist: map<Cell, nat>, level: nat)
  {
    && dist.Keys <= universe
    && QueueReachable(l, start, universe, q)
    && QueueLevels(q, level)
    && Settled(goals, dist, level)
    && (start in dist ==> dist[start] == 0)
    && (start in dist || q == [(start, 0)])
    && Closed(l, q, dist)
  }

  /** Every queued entry names a cell reachable in exactly its distance. */
  ghost predicate QueueReachable(l: Layout, start: Cell, universe: set<Cell>, q: seq<(Cell, int)>)
  {
    forall i :: 0 <= i < |q| ==> q[i].0 in universe && ConnectedIn(l, start, q[i].0, q[i].1)
  }

  /** The queued distances are non-decreasing and lie in [level, level + 1]. */
  ghost predicate QueueLevels(q: seq<(Cell, int)>, level: nat) {
    && (forall i :: 0 <= i < |q| ==> level <= q[i].1 <= level + 1)
    && (forall i, j :: 0 <= i <= j < |q| ==> q[i].1 <= q[j].1)
  }

  /** Visited cells lie off the goal rows and have distance at most level. */
  ghost predicate Settled(goals: seq<int>, dist: map<Cell, nat>, level: nat) {
    forall x :: x in dist ==> x.0 !in goals && dist[x] <= level
  }

  /** Each open neighbour of a visited cell is visited at most one step further or queued one step further. */
  ghost predicate Closed(l: Layout, q: seq<(Cell, int)>, dist: map<Cell, nat>)
  {
    forall x, y :: x in dist && Step(l, x, y) ==> (y in dist && dist[y] <= dist[x] + 1) || (y, dist[x] + 1) in q
  }

  /** No entry of a queue sorted by distance has a smaller distance than its head. */
  lemma NotQueuedBelowHead(q: seq<(Cell, int)>, y: Cell, e: int)
    requires q != [] && e < q[0].1
    requires forall i, j :: 0 <= i <= j < |q| ==> q[i].1 <= q[j].1
    ensures (y, e) !in q
  {
    forall i | 0 <= i < |q|
      ensures q[i] != (y, e)
    {
      assert q[0].1 <= q[i].1;
    }
  }

  /** While the head entry has distance d, every walk of fewer than d steps from start ends on a visited cell. */
  lemma {:induction false} NoShorterWalk(l: Layout, start: Cell, goals: seq<int>, universe: set<Cell>,
                                         q: seq<(Cell, int)>, dist: map<Cell, nat>, level: nat, p: seq<Cell>)
    requires l.WellFormed() && Frontier(l, start, goals, universe, q, dist, level)
    requires q != [] && WalkFrom(l, start, p) && |p| <= q[0].1
    ensures Last(p) in dist
  {
    var k := 0;
    while k < |p| - 1
      invariant 0 <= k < |p|
      invariant p[k] in dist && dist[p[k]] <= k
    {
      assert Step(l, p[k], p[k + 1]);
      NotQueuedBelowHead(q, p[k + 1], dist[p[k]] + 1);
      k := k + 1;
    }
  }

  /** The distance search starts with only start queued, at distance 0. */
  lemma FrontierInit(l: Layout, start: Cell, goals: seq<int>, universe: set<Cell>)
    requires start in universe
    ensures Frontier(l, start, goals, universe, [(start, 0)], map[], 0)
  {
    assert WalkFrom(l, start, [start]);
  }

  /** An exhausted distance search has visited a closed set off the goal rows that holds start. */
  lemma DistExhausted(l: Layout, start: Cell, goals: seq<int>, universe: set<Cell>, dist: map<Cell, nat>, level: nat)
    requires l.WellFormed() && Frontier(l, start, goals, universe, [], dist, level)
    ensures !Reachable(l, start, goals)
  {
    ClosedSetUnreachable(l, start, goals, dist.Keys);
  }

  /** A head entry on a goal row that was not visited before carries the distance. */
  lemma DistFound(l: Layout, start: Cell, goals: seq<int>, universe: set<Cell>,
                  q: seq<(Cell, int)>, dist: map<Cell, nat>, level: nat)
    requires l.WellFormed() && Frontier(l, start, goals, universe, q, dist, level)
    requires q != [] && q[0].0 !in dist && q[0].0.0 in goals
    ensures q[0].1 >= 0 && IsDistance(l, start, goals, q[0].1) && Reachable(l, start, goals)
  {
    var p :| WalkFrom(l, start, p) && Last(p) == q[0].0 && |p| == q[0].1 + 1;
    assert ReachesGoal(l, start, goals, p);
    forall p' | ReachesGoal(l, start, goals, p')
      ensures |p'| >= q[0].1 + 1
    {
      if |p'| <= q[0].1 {
        NoShorterWalk(l, start, goals, universe, q, dist, level, p');
      }
    }
  }

  /** Popping an entry whose cell was visited before keeps the distance-search state. */
  lemma DistSkip(l: Layout, start: Cell, goals: seq<int>, universe: set<Cell>,
                 q: seq<(Cell, int)>, dist: map<Cell, nat>, level: nat)
    requires l.WellFormed() && Frontier(l, start, goals, universe, q, dist, level)
    requires q != [] && q[0].0 in dist
    ensures q[0].1 >= 0 && Frontier(l, start, goals, universe, q[1..], dist, q[0].1)
  {
    var q' := q[1..];
    assert forall i :: 0 <= i < |q'| ==> q'[i] == q[i + 1];
    assert forall e :: e in q ==> e == q[0] || e in q';
  }

  /** After a full expansion of x with distance d, every open neighbour of x is visited or queued with distance d. */
  lemma DistExpansionCovers(l: Layout, x: Cell, visited: set<Cell>, q: seq<(Cell, int)>, d: int, y: Cell)
    requires l.WellFormed() && Step(l, x, y) && y !in visited
    ensures (y, d) in DistEnqueue(l, x, visited, q, |Directions|, d)
  {
    StepIsDirection(l, x, y);
    OpenEdgeIsStep(l, x, y);
    DistEnqueueContents(l, x, visited, q, |Directions|, d);
  }

  /** Popping the head and queueing its fresh neighbours one step further keeps every entry reachable in its distance. */
  lemma EnqueueReachable(l: Layout, start: Cell, universe: set<Cell>, q: seq<(Cell, int)>, visited: set<Cell>)
    requires l.WellFormed() && Covers(l, universe)
    requires q != [] && QueueReachable(l, start, universe, q)
    ensures QueueReachable(l, start, universe, DistEnqueue(l, q[0].0, visited, q[1..], |Directions|, q[0].1 + 1))
  {
    var cur, d := q[0].0, q[0].1;
    var q' := DistEnqueue(l, cur, visited, q[1..], |Directions|, d + 1);
    DistEnqueueContents(l, cur, visited, q[1..], |Directions|, d + 1);
    forall i | 0 <= i < |q'|
      ensures q'[i].0 in universe && ConnectedIn(l, start, q'[i].0, q'[i].1)
    {
      if i < |q| - 1 {
        assert q'[i] == q[i + 1];
      } else {
        OpenEdgeIsStep(l, cur, q'[i].0);
        ConnectedInStep(l, start, cur, d, q'[i].0);
      }
    }
  }

  /** Popping the head and queueing the fresh neighbours of its cell loses no entry but the head. */
  lemma EnqueueKeeps(l: Layout, q: seq<(Cell, int)>, visited: set<Cell>, d: int)
    requires q != []
    ensures forall e :: e in q ==> e == q[0] || e in DistEnqueue(l, q[0].0, visited, q[1..], |Directions|, d)
  {
    var q' := DistEnqueue(l, q[0].0, visited, q[1..], |Directions|, d);
    DistEnqueueContents(l, q[0].0, visited, q[1..], |Directions|, d);
    forall e | e in q
      ensures e == q[0] || e in q'
    {
      var i :| 0 <= i < |q| && q[i] == e;
      if i > 0 {
        assert q'[i - 1] == e;
      }
    }
  }

  /** In a sorted queue within [level, level + 1] the head carries the least distance, and at least level. */
  lemma HeadIsLeast(q: seq<(Cell, int)>, level: nat)
    requires q != [] && QueueLevels(q, level)
    ensures level <= q[0].1
    ensures forall i :: 0 <= i < |q| ==> q[0].1 <= q[i].1
  {
  }

  /**
   * Popping the head and queueing its fresh neighbours one step further keeps the queue sorted,
   * now within [d, d + 1] for the head's distance d.
   */
  lemma EnqueueLevels(l: Layout, q: seq<(Cell, int)>, level: nat, visited: set<Cell>)
    requires q != [] && QueueLevels(q, level)
    ensures q[0].1 >= 0
    ensures QueueLevels(DistEnqueue(l, q[0].0, visited, q[1..], |Directions|, q[0].1 + 1), q[0].1)
  {
    var cur, d := q[0].0, q[0].1;
    var q' := DistEnqueue(l, cur, visited, q[1..], |Directions|, d + 1);
    DistEnqueueContents(l, cur, visited, q[1..], |Directions|, d + 1);
    assert forall i :: 0 <= i < |q| - 1 ==> q'[i] == q[i + 1];
  }

  /** Visiting one more cell of a finite universe leaves fewer unvisited cells. */
  lemma VisitShrinks<T>(universe: set<T>, visited: set<T>, x: T)
    requires visited <= universe && x in universe && x !in visited
    ensures |visited + {x}| == |visited| + 1 <= |universe|
  {
    var v' := visited + {x};
    assert universe == v' + (universe - v');
  }

  /** Visiting the head cell with its distance and queueing its fresh neighbours one step further keeps Closed. */
  lemma ClosedAfterVisit(l: Layout, q: seq<(Cell, int)>, dist: map<Cell, nat>)
    requires l.WellFormed() && Closed(l, q, dist)
    requires q != [] && q[0].0 !in dist && q[0].1 >= 0
    requires forall i :: 0 <= i < |q| ==> q[0].1 <= q[i].1
    requires forall x :: x in dist ==> dist[x] <= q[0].1
    ensures var cur, d := q[0].0, q[0].1;
      Closed(l, DistEnqueue(l, cur, dist.Keys + {cur}, q[1..], |Directions|, d + 1), dist[cur := d])
  {
    var cur, d := q[0].0, q[0].1;
    var v' := dist.Keys + {cur};
    var q' := DistEnqueue(l, cur, v', q[1..], |Directions|, d + 1);
    EnqueueKeeps(l, q, v', d + 1);
    var dist' := dist[cur := d];
    forall x, y | x in dist' && Step(l, x, y)
      ensures (y in dist' && dist'[y] <= dist'[x] + 1) || (y, dist'[x] + 1) in q'
    {
      if x == cur {
        if y !in v' {
          DistExpansionCovers(l, cur, v', q[1..], d + 1, y);
        }
      } else if y !in dist {
        var i :| 0 <= i < |q| && q[i] == (y, dist[x] + 1);
      }
    }
  }

  /** Visiting a new cell off the goal rows and queueing its expansion keeps the distance-search state. */
  lemma DistVisit(l: Layout, start: Cell, goals: seq<int>, universe: set<Cell>,
                  q: seq<(Cell, int)>, dist: map<Cell, nat>, level: nat)
    requires l.WellFormed() && Frontier(l, start, goals, universe, q, dist, level)
    requires Covers(l, universe)
    requires q != [] && q[0].0 !in dist && q[0].0.0 !in goals
    ensures q[0].1 >= 0
    ensures var cur, d := q[0].0, q[0].1;
      Frontier(l, start, goals, universe, DistEnqueue(l, cur, dist.Keys + {cur}, q[1..], |Directions|, d + 1),
               dist[cur := d], d)
    ensures q[0].0 in universe
  {
    var cur, d := q[0].0, q[0].1;
    var v' := dist.Keys + {cur};
    EnqueueReachable(l, start, universe, q, v');
    EnqueueLevels(l, q, level, v');
    HeadIsLeast(q, level);
    ClosedAfterVisit(l, q, dist);
    assert cur in universe && level <= d;
    assert start !in dist ==> cur == start && d == 0;
  }
}
